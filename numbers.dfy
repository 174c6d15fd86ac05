/** The number detector (`_parsear_numero`) and the two-decimal display `f"{v:,.2f}"`.
    Parsed numbers are exact decimals: `Decimal(m, s)` stands for `m / 10^s`. */
module Numbers {
  import opened Wrappers
  import opened Strings

  datatype Decimal = Decimal(mantissa: int, scale: nat)

  /** Two decimals denote the same number. */
  predicate SameValue(a: Decimal, b: Decimal) {
    a.mantissa * Pow10(b.scale) == b.mantissa * Pow10(a.scale)
  }

  /** `val != int(val)` is false: the number has no fractional part. */
  predicate IsIntegral(d: Decimal) {
    d.mantissa % Pow10(d.scale) == 0
  }

  // ---------------------------------------------------------------------------------
  // Text helpers
  // ---------------------------------------------------------------------------------

  /** `s.replace(c, "")`. */
  function Remove(s: string, c: char): (r: string)
    ensures c !in r && |r| <= |s|
  {
    if s == [] then [] else (if s[0] == c then [] else [s[0]]) + Remove(s[1..], c)
  }

  lemma {:induction false} RemoveAppend(a: string, b: string, c: char)
    ensures Remove(a + b, c) == Remove(a, c) + Remove(b, c)
  {
    if a != [] {
      assert (a + b)[0] == a[0];
      assert (a + b)[1..] == a[1..] + b;
      RemoveAppend(a[1..], b, c);
      var head := if a[0] == c then [] else [a[0]];
      assert Remove(a + b, c) == head + Remove(a[1..] + b, c);
      assert Remove(a, c) == head + Remove(a[1..], c);
    } else {
      assert a + b == b;
    }
  }

  lemma {:induction false} RemoveAbsent(s: string, c: char)
    requires c !in s
    ensures Remove(s, c) == s
  {
    if s != [] {
      RemoveAbsent(s[1..], c);
    }
  }

  lemma RemoveAround(x: string, c: char, y: string)
    ensures Remove(x + [c] + y, c) == Remove(x + [c], c) + Remove(y, c)
  {
    RemoveAppend(x + [c], y, c);
  }

  lemma RemoveLast(x: string, c: char)
    ensures Remove(x + [c], c) == Remove(x, c)
  {
    RemoveAppend(x, [c], c);
    assert [c][1..] == [];
  }

  /** Removing drops each occurrence of the character and keeps everything else. */
  lemma RemoveOne(x: string, c: char, y: string)
    ensures Remove(x + [c] + y, c) == Remove(x, c) + Remove(y, c)
  {
    RemoveAround(x, c, y);
    RemoveLast(x, c);
  }

  /** Dropping one separator occurrence followed by a separator-free tail. */
  lemma RemoveSeparator(x: string, c: char, y: string)
    requires c !in y
    ensures Remove(x + [c] + y, c) == Remove(x, c) + y
  {
    RemoveOne(x, c, y);
    RemoveAbsent(y, c);
  }

  /** Every character is a digit or `c` (the regex class `[\d c]`). */
  predicate DigitsOr(s: string, c: char) {
    forall i :: 0 <= i < |s| ==> IsDigit(s[i]) || s[i] == c
  }

  /** Removing the one extra character of `[\d c]` leaves digits. */
  lemma {:induction false} RemoveLeavesDigits(s: string, c: char)
    requires DigitsOr(s, c)
    ensures AllDigits(Remove(s, c))
  {
    if s != [] {
      RemoveLeavesDigits(s[1..], c);
    }
  }

  /** The optional leading minus sign of every pattern, and what follows it. */
  predicate Negative(v: string) {
    v != [] && v[0] == '-'
  }

  function Body(v: string): string {
    if Negative(v) then v[1..] else v
  }

  /** An integer part and a fraction part, as a mantissa over `10^|fp|`: the value of the
      digits written one after the other. */
  function Mag(ip: string, fp: string): nat
    requires AllDigits(ip) && AllDigits(fp)
  {
    if fp == [] then Value(ip) else Mag(ip, fp[..|fp| - 1]) * 10 + DigitValue(fp[|fp| - 1])
  }

  /** The mantissa is the integer part scaled by `10^|fp|` plus the fraction's digits. */
  lemma {:induction false} MagValue(ip: string, fp: string)
    requires AllDigits(ip) && AllDigits(fp)
    ensures Mag(ip, fp) == Value(ip) * Pow10(|fp|) + Value(fp)
  {
    if fp != [] {
      var f' := fp[..|fp| - 1];
      MagValue(ip, f');
      var x, p, y := Value(ip), Pow10(|f'|), Value(f');
      ShiftDigit(x, p, y);
      assert Pow10(|fp|) == p * 10;
    }
  }

  /** Removing a grouping separator from between two digit runs joins them. */
  lemma SeparatorOut(a: string, c: char, b: string)
    requires AllDigits(a) && AllDigits(b) && !IsDigit(c)
    ensures Remove(a + [c] + b, c) == a + b
  {
    DigitsExclude(a, c);
    DigitsExclude(b, c);
    RemoveSeparator(a, c, b);
    RemoveAbsent(a, c);
  }

  lemma CommasOut(a: string, b: string, c: string)
    requires AllDigits(a) && AllDigits(b) && AllDigits(c)
    ensures Remove(a + "," + b + "," + c, ',') == a + b + c
  {
    SeparatorOut(a, ',', b);
    DigitsExclude(c, ',');
    RemoveSeparator(a + "," + b, ',', c);
  }

  // ---------------------------------------------------------------------------------
  // The four shapes, on the text after the optional minus sign
  // ---------------------------------------------------------------------------------

  /** `[\d,]+\.\d+`: comma-grouped digits, one point, digits. */
  predicate American(b: string) {
    var ps := Split(b, '.');
    |ps| == 2 && ps[0] != [] && DigitsOr(ps[0], ',') && ps[1] != [] && AllDigits(ps[1])
  }

  /** `[\d.]+,\d+`: point-grouped digits, one comma, digits. */
  predicate European(b: string) {
    var ps := Split(b, ',');
    |ps| == 2 && ps[0] != [] && DigitsOr(ps[0], '.') && ps[1] != [] && AllDigits(ps[1])
  }

  /** `[\d,]+` holding at least one comma. */
  predicate CommaInteger(b: string) {
    b != [] && DigitsOr(b, ',') && ',' in b
  }

  /** `\d+\.?\d*`: digits, then optionally a point and more digits. */
  predicate Plain(b: string) {
    var ps := Split(b, '.');
    (|ps| == 1 || |ps| == 2) && ps[0] != [] && AllDigits(ps[0]) && AllDigits(ps[|ps| - 1])
  }


  /** The shapes tried in order on the text after the sign, each with its own
      normalisation before `float`; the comma-grouped integer made only of commas is the one
      normalisation `float` rejects. */
  function Unsigned(b: string): Option<Decimal> {
    if American(b) then
      var ps := Split(b, '.');
      RemoveLeavesDigits(ps[0], ',');
      Some(Decimal(Mag(Remove(ps[0], ','), ps[1]), |ps[1]|))
    else if European(b) then
      var ps := Split(b, ',');
      RemoveLeavesDigits(ps[0], '.');
      Some(Decimal(Mag(Remove(ps[0], '.'), ps[1]), |ps[1]|))
    else if CommaInteger(b) then
      var ip := Remove(b, ',');
      RemoveLeavesDigits(b, ',');
      if ip == [] then None else Some(Decimal(Value(ip), 0))
    else if Plain(b) then
      var ps := Split(b, '.');
      var fp := if |ps| == 2 then ps[1] else [];
      Some(Decimal(Mag(ps[0], fp), |fp|))
    else None
  }

  /** A leading minus sign negates what the rest reads as (`float("-" + x)`). */
  function WithSign(negative: bool, r: Option<Decimal>): Option<Decimal> {
    match r
    case None => None
    case Some(d) => Some(Decimal(if negative then -d.mantissa else d.mantissa, d.scale))
  }

  function Read(v: string): Option<Decimal> {
    WithSign(Negative(v), Unsigned(Body(v)))
  }

  /** `_parsear_numero`: strip, reject blank input, drop the spaces inside, then read. */
  function ParseNumber(val: string): Option<Decimal> {
    var t := Strip(val);
    if t == [] then None else Read(Remove(t, ' '))
  }

  // ---------------------------------------------------------------------------------
  // Splitting helpers
  // ---------------------------------------------------------------------------------

  /** Two pieces around one separator. */
  lemma SplitTwo(a: string, c: char, b: string)
    requires c !in a && c !in b
    ensures Split(a + [c] + b, c) == [a, b]
  {
    SplitNoSeparator(a, c);
    SplitNoSeparator(b, c);
    SplitAppend(a, c, b);
  }

  lemma SplitThree(a: string, c: char, b: string, d: string)
    requires c !in a && c !in b && c !in d
    ensures Split(a + [c] + b + [c] + d, c) == [a, b, d]
  {
    SplitNoSeparator(a, c);
    SplitTwo(b, c, d);
    assert a + [c] + b + [c] + d == a + [c] + (b + [c] + d);
    SplitAppend(a, c, b + [c] + d);
  }

  lemma Regroup(a: string, x: string, b: string, y: string, f: string)
    ensures a + x + b + y + f == a + x + (b + y + f)
  {
  }

  lemma DigitsOrExclude(s: string, c: char, x: char)
    requires DigitsOr(s, c) && !IsDigit(x) && x != c
    ensures x !in s
  {
    forall i | 0 <= i < |s| ensures s[i] != x {
      assert IsDigit(s[i]) || s[i] == c;
    }
  }

  lemma DigitsOrJoin(a: string, c: char, b: string)
    requires AllDigits(a) && AllDigits(b)
    ensures DigitsOr(a + [c] + b, c)
  {
    var g := a + [c] + b;
    forall i | 0 <= i < |g| ensures IsDigit(g[i]) || g[i] == c {
      if i < |a| { assert g[i] == a[i]; } else if i > |a| { assert g[i] == b[i - |a| - 1]; }
    }
  }

  // ---------------------------------------------------------------------------------
  // Which shape reads a text
  // ---------------------------------------------------------------------------------

  /** Comma-grouped digits, a point and digits are read by the American shape. */
  lemma AmericanUnsigned(g: string, f: string)
    requires g != [] && DigitsOr(g, ',') && f != [] && AllDigits(f)
    ensures AllDigits(Remove(g, ','))
    ensures Unsigned(g + "." + f) == Some(Decimal(Mag(Remove(g, ','), f), |f|))
  {
    RemoveLeavesDigits(g, ',');
    DigitsOrExclude(g, ',', '.');
    DigitsExclude(f, '.');
    SplitTwo(g, '.', f);
  }

  /** Point-grouped digits, a comma and digits are read by the European shape, once the
      American shape is ruled out. */
  lemma EuropeanUnsigned(g: string, f: string)
    requires g != [] && DigitsOr(g, '.') && f != [] && AllDigits(f) && !American(g + "," + f)
    ensures AllDigits(Remove(g, '.'))
    ensures Unsigned(g + "," + f) == Some(Decimal(Mag(Remove(g, '.'), f), |f|))
  {
    RemoveLeavesDigits(g, '.');
    DigitsOrExclude(g, '.', ',');
    DigitsExclude(f, ',');
    SplitTwo(g, ',', f);
  }

  /** Digits and commas that neither decimal shape reads are a comma-grouped integer. */
  lemma CommaIntegerUnsigned(b: string)
    requires CommaInteger(b) && !American(b) && !European(b)
    ensures AllDigits(Remove(b, ','))
    ensures Unsigned(b) == if Remove(b, ',') == [] then None else Some(Decimal(Value(Remove(b, ',')), 0))
  {
    RemoveLeavesDigits(b, ',');
  }

  lemma CommaIntegerReads(b: string)
    requires CommaInteger(b) && !American(b) && !European(b) && Remove(b, ',') != []
    ensures AllDigits(Remove(b, ','))
    ensures Unsigned(b) == Some(Decimal(Value(Remove(b, ',')), 0))
  {
    RemoveLeavesDigits(b, ',');
  }

  /** Plain digits are an integer. */
  lemma IntegerUnsigned(d: string)
    requires d != [] && AllDigits(d)
    ensures Unsigned(d) == Some(Decimal(Value(d), 0))
  {
    DigitsExclude(d, '.');
    DigitsExclude(d, ',');
    SplitNoSeparator(d, '.');
    SplitNoSeparator(d, ',');
  }

  lemma NoPointNotAmerican(b: string)
    requires '.' !in b
    ensures !American(b)
  {
    SplitNoSeparator(b, '.');
  }

  /** A comma after the only point rules the American shape out. */
  lemma CommaAfterPoint(a: string, t: string)
    requires '.' !in a && '.' !in t && ',' in t
    ensures !American(a + "." + t)
  {
    SplitTwo(a, '.', t);
    var i :| 0 <= i < |t| && t[i] == ',';
    assert !IsDigit(t[i]);
  }

  /** Two commas rule the European shape out. */
  lemma TwoCommasNotEuropean(a: string, b: string, c: string)
    requires ',' !in a && ',' !in b && ',' !in c
    ensures !European(a + "," + b + "," + c)
  {
    SplitThree(a, ',', b, c);
  }

  // ---------------------------------------------------------------------------------
  // From the raw value to the reading
  // ---------------------------------------------------------------------------------

  /** A value without whitespace at its ends and without spaces inside is read as it stands. */
  lemma Normalised(v: string)
    requires v != [] && NoSpaceAtEnds(v) && ' ' !in v
    ensures Strip(v) == v && Remove(v, ' ') == v
    ensures ParseNumber(v) == Read(v)
  {
    StripUnchanged(v);
    RemoveAbsent(v, ' ');
  }

  lemma Unsignedly(v: string)
    requires v != [] && NoSpaceAtEnds(v) && ' ' !in v && !Negative(v)
    ensures Strip(v) == v && Remove(v, ' ') == v && Body(v) == v
    ensures ParseNumber(v) == Unsigned(v)
  {
    Normalised(v);
  }

  lemma Negatively(b: string)
    requires b != [] && !IsSpace(b[|b| - 1]) && ' ' !in b
    ensures Strip("-" + b) == "-" + b && Remove("-" + b, ' ') == "-" + b && Body("-" + b) == b
    ensures ParseNumber("-" + b) == WithSign(true, Unsigned(b))
  {
    var v := "-" + b;
    assert v[|v| - 1] == b[|b| - 1] && v[1..] == b;
    Normalised(v);
  }

  // ---------------------------------------------------------------------------------
  // Properties of the detector
  // ---------------------------------------------------------------------------------

  /** Blank input is not a number. */
  lemma BlankRejected(val: string)
    requires AllSpace(val)
    ensures ParseNumber(val).None?
  {
    StripEmptyIff(val);
  }

  predicate Numeric(ch: char) {
    IsDigit(ch) || ch == ',' || ch == '.'
  }

  lemma PiecesNumeric(b: string, c: char)
    requires c == ',' || c == '.'
    requires forall i, k :: 0 <= i < |Split(b, c)| && 0 <= k < |Split(b, c)[i]| ==> Numeric(Split(b, c)[i][k])
    ensures forall k :: 0 <= k < |b| ==> Numeric(b[k])
  {
    JoinChars(Split(b, c), c, Numeric);
  }

  /** Every shape is made of digits, commas and points only. */
  lemma ShapeChars(b: string)
    requires American(b) || European(b) || CommaInteger(b) || Plain(b)
    ensures forall k :: 0 <= k < |b| ==> Numeric(b[k])
  {
    if American(b) || Plain(b) {
      var ps := Split(b, '.');
      assert forall i, k :: 0 <= i < |ps| && 0 <= k < |ps[i]| ==> Numeric(ps[i][k]) by {
        forall i, k | 0 <= i < |ps| && 0 <= k < |ps[i]| ensures Numeric(ps[i][k]) {
          if American(b) {
            assert i == 0 || i == 1;
          } else {
            assert i == 0 || i == |ps| - 1;
          }
        }
      }
      PiecesNumeric(b, '.');
    } else if European(b) {
      var ps := Split(b, ',');
      assert forall i, k :: 0 <= i < |ps| && 0 <= k < |ps[i]| ==> Numeric(ps[i][k]) by {
        forall i, k | 0 <= i < |ps| && 0 <= k < |ps[i]| ensures Numeric(ps[i][k]) {
          assert i == 0 || i == 1;
        }
      }
      PiecesNumeric(b, ',');
    }
  }

  lemma {:induction false} RemoveKeeps(s: string, c: char, k: nat)
    requires k < |s| && s[k] != c
    ensures exists i :: 0 <= i < |Remove(s, c)| && Remove(s, c)[i] == s[k]
  {
    var head := if s[0] == c then [] else [s[0]];
    assert Remove(s, c) == head + Remove(s[1..], c);
    if k == 0 {
      assert Remove(s, c)[0] == s[0];
    } else {
      RemoveKeeps(s[1..], c, k - 1);
      var i :| 0 <= i < |Remove(s[1..], c)| && Remove(s[1..], c)[i] == s[1..][k - 1];
      assert Remove(s, c)[|head| + i] == s[k];
    }
  }

  /** A character of the normalised text other than a digit, `,`, `.` or a leading `-`
      makes it unreadable. */
  lemma ForeignInRead(v: string, i: nat)
    requires i < |v| && !Numeric(v[i]) && v[i] != '-'
    ensures Read(v).None?
  {
    var b := Body(v);
    if American(b) || European(b) || CommaInteger(b) || Plain(b) {
      assert Negative(v) ==> i >= 1 && v[i] == b[i - 1];
      assert !Negative(v) ==> v[i] == b[i];
      ShapeChars(b);
    }
  }

  /** A minus sign anywhere but in front makes the text unreadable. */
  lemma InnerMinusRejected(v: string, i: nat)
    requires 1 <= i < |v| && v[i] == '-'
    ensures Read(v).None?
  {
    var b := Body(v);
    if American(b) || European(b) || CommaInteger(b) || Plain(b) {
      assert Negative(v) ==> v[i] == b[i - 1];
      assert !Negative(v) ==> v[i] == b[i];
      ShapeChars(b);
    }
  }

  /** A character other than whitespace, a digit, `,`, `.` or `-` (a letter, say) makes the
      value not a number. */
  lemma ForeignCharRejected(val: string, k: nat)
    requires k < |val| && !IsSpace(val[k]) && !IsDigit(val[k]) && val[k] !in ",.-"
    ensures ParseNumber(val).None?
  {
    StripKeeps(val, k);
    var t := Strip(val);
    var j :| 0 <= j < |t| && t[j] == val[k];
    RemoveKeeps(t, ' ', j);
    var v := Remove(t, ' ');
    var i :| 0 <= i < |v| && v[i] == val[k];
    ForeignInRead(v, i);
  }

  /** Spaces inside a value are ignored: `"1 234,5"` reads as `"1234,5"`. */
  lemma InnerSpaceIgnored(a: string, b: string)
    requires a != [] && b != [] && !IsSpace(a[0]) && !IsSpace(b[|b| - 1])
    ensures ParseNumber(a + " " + b) == ParseNumber(a + b)
  {
    var x, y := a + " " + b, a + b;
    assert x[0] == a[0] && x[|x| - 1] == b[|b| - 1];
    assert y[0] == a[0] && y[|y| - 1] == b[|b| - 1];
    StripUnchanged(x);
    StripUnchanged(y);
    RemoveOne(a, ' ', b);
    RemoveAppend(a, b, ' ');
  }

  /** Digits with two decimal points and no comma (`"1.2.3"`) fit no shape. */
  lemma TwoPointsUnread(a: string, b: string, c: string)
    requires AllDigits(a) && AllDigits(b) && AllDigits(c)
    ensures Unsigned(a + "." + b + "." + c).None?
  {
    var v := a + "." + b + "." + c;
    DigitsExclude(a, '.');
    DigitsExclude(b, '.');
    DigitsExclude(c, '.');
    SplitThree(a, '.', b, c);
    DigitsExclude(a, ',');
    DigitsExclude(b, ',');
    DigitsExclude(c, ',');
    assert ',' !in v;
    SplitNoSeparator(v, ',');
  }

  lemma TwoPointsRejected(a: string, b: string, c: string)
    requires AllDigits(a) && AllDigits(b) && AllDigits(c) && a != [] && c != []
    ensures ParseNumber(a + "." + b + "." + c).None?
  {
    var v := a + "." + b + "." + c;
    DigitsExclude(a, ' ');
    DigitsExclude(b, ' ');
    DigitsExclude(c, ' ');
    assert v[0] == a[0] && v[|v| - 1] == c[|c| - 1] && ' ' !in v;
    Unsignedly(v);
    TwoPointsUnread(a, b, c);
  }

  /** A single comma between digit runs is a decimal comma, because the European shape is
      tried before the comma-grouped integer. */
  lemma DecimalCommaWins(p: string, f: string)
    requires AllDigits(p) && AllDigits(f) && p != [] && f != []
    ensures ParseNumber(p + "," + f) == Some(Decimal(Mag(p, f), |f|))
  {
    var v := p + "," + f;
    DigitsExclude(p, ' ');
    DigitsExclude(f, ' ');
    assert v[0] == p[0] && v[|v| - 1] == f[|f| - 1] && ' ' !in v;
    Unsignedly(v);
    DigitsExclude(p, '.');
    DigitsExclude(f, '.');
    assert '.' !in v;
    NoPointNotAmerican(v);
    EuropeanUnsigned(p, f);
    RemoveAbsent(p, '.');
  }

  /** The American shape with one thousands comma: `a,b.f` reads as `ab.f`. */
  lemma AmericanReads(a: string, b: string, f: string)
    requires AllDigits(a) && AllDigits(b) && AllDigits(f) && a != [] && b != [] && f != []
    ensures AllDigits(a + b)
    ensures ParseNumber(a + "," + b + "." + f) == Some(Decimal(Mag(a + b, f), |f|))
  {
    var g := a + "," + b;
    var v := g + "." + f;
    DigitsExclude(a, ' ');
    DigitsExclude(b, ' ');
    DigitsExclude(f, ' ');
    assert v[0] == a[0] && v[|v| - 1] == f[|f| - 1] && ' ' !in v;
    Unsignedly(v);
    DigitsOrJoin(a, ',', b);
    AmericanUnsigned(g, f);
    SeparatorOut(a, ',', b);
    DigitsAppend(a, b);
  }

  /** The European shape with one thousands point: `a.b,f` reads as `ab.f`; the American
      shape does not apply because the text after the point holds the comma. */
  lemma EuropeanReads(a: string, b: string, f: string)
    requires AllDigits(a) && AllDigits(b) && AllDigits(f) && a != [] && b != [] && f != []
    ensures AllDigits(a + b)
    ensures ParseNumber(a + "." + b + "," + f) == Some(Decimal(Mag(a + b, f), |f|))
  {
    var g := a + "." + b;
    var v := g + "," + f;
    DigitsExclude(a, ' ');
    DigitsExclude(b, ' ');
    DigitsExclude(f, ' ');
    assert v[0] == a[0] && v[|v| - 1] == f[|f| - 1] && ' ' !in v;
    Unsignedly(v);
    var t := b + "," + f;
    DigitsExclude(a, '.');
    DigitsExclude(b, '.');
    DigitsExclude(f, '.');
    assert '.' !in t && ',' in t by { assert t[|b|] == ','; }
    Regroup(a, ".", b, ",", f);
    CommaAfterPoint(a, t);
    DigitsOrJoin(a, '.', b);
    EuropeanUnsigned(g, f);
    SeparatorOut(a, '.', b);
    DigitsAppend(a, b);
  }

  /** A minus sign before plain digits negates them. */
  lemma NegativeIntegerReads(d: string)
    requires AllDigits(d) && d != []
    ensures ParseNumber("-" + d) == Some(Decimal(-(Value(d) as int), 0))
  {
    DigitsTidy(d);
    Negatively(d);
    IntegerUnsigned(d);
  }

  lemma DigitsTidy(d: string)
    requires AllDigits(d) && d != []
    ensures !IsSpace(d[0]) && !IsSpace(d[|d| - 1]) && ' ' !in d
  {
    DigitsExclude(d, ' ');
  }

  /** With two commas the European shape fails and the comma-grouped integer reads the
      digits: `a,b,c` is the integer `abc`. */
  lemma TwoCommasInteger(a: string, b: string, c: string)
    requires AllDigits(a) && AllDigits(b) && AllDigits(c) && a != [] && c != []
    ensures AllDigits(a + b + c)
    ensures ParseNumber(a + "," + b + "," + c) == Some(Decimal(Value(a + b + c), 0))
  {
    var v := a + "," + b + "," + c;
    DigitsExclude(a, ' ');
    DigitsExclude(b, ' ');
    DigitsExclude(c, ' ');
    assert v[0] == a[0] && v[|v| - 1] == c[|c| - 1] && ' ' !in v;
    Unsignedly(v);
    TwoCommasUnsigned(a, b, c);
  }

  lemma TwoCommasUnsigned(a: string, b: string, c: string)
    requires AllDigits(a) && AllDigits(b) && AllDigits(c) && a != []
    ensures AllDigits(a + b + c)
    ensures Unsigned(a + "," + b + "," + c) == Some(Decimal(Value(a + b + c), 0))
  {
    var g := a + "," + b;
    var v := g + "," + c;
    DigitsExclude(a, '.');
    DigitsExclude(b, '.');
    DigitsExclude(c, '.');
    assert '.' !in v;
    NoPointNotAmerican(v);
    DigitsExclude(a, ',');
    DigitsExclude(b, ',');
    DigitsExclude(c, ',');
    TwoCommasNotEuropean(a, b, c);
    DigitsOrJoin(a, ',', b);
    DigitsOrCommaTail(g, c);
    assert v[|a|] == ',';
    CommasOut(a, b, c);
    DigitsAppend(a, b);
    DigitsAppend(a + b, c);
    CommaIntegerReads(v);
  }

  lemma DigitsOrCommaTail(g: string, c: string)
    requires DigitsOr(g, ',') && AllDigits(c)
    ensures DigitsOr(g + "," + c, ',')
  {
    var v := g + "," + c;
    forall i | 0 <= i < |v| ensures IsDigit(v[i]) || v[i] == ',' {
      if i < |g| { assert v[i] == g[i]; } else if i > |g| { assert v[i] == c[i - |g| - 1]; }
    }
  }

  /** With an empty integer side the European shape fails too: `,f` is the integer `f`. */
  lemma LeadingCommaInteger(f: string)
    requires AllDigits(f) && f != []
    ensures ParseNumber("," + f) == Some(Decimal(Value(f), 0))
  {
    var v := "," + f;
    DigitsExclude(f, ' ');
    assert v[|v| - 1] == f[|f| - 1] && ' ' !in v;
    Unsignedly(v);
    LeadingCommaUnsigned(f);
  }

  /** A single trailing comma leaves no digits after it for the European shape, so
      `"140,"` reads as the integer 140. */
  lemma TrailingCommaInteger(a: string)
    requires AllDigits(a) && a != []
    ensures ParseNumber(a + ",") == Some(Decimal(Value(a), 0))
  {
    var v := a + ",";
    DigitsExclude(a, ' ');
    assert v[0] == a[0] && v[|v| - 1] == ',' && ' ' !in v;
    Unsignedly(v);
    TrailingCommaUnsigned(a);
  }

  lemma TrailingCommaUnsigned(a: string)
    requires AllDigits(a) && a != []
    ensures Unsigned(a + ",") == Some(Decimal(Value(a), 0))
  {
    var v := a + ",";
    DigitsExclude(a, '.');
    assert '.' !in v;
    NoPointNotAmerican(v);
    DigitsExclude(a, ',');
    TrailingSplit(a, ',');
    TrailingDigitsOr(a);
    TrailingRemove(a, ',');
    CommaIntegerUnsigned(v);
  }

  lemma TrailingSplit(a: string, c: char)
    requires c !in a
    ensures Split(a + [c], c) == [a, []]
  {
    SplitNoSeparator(a, c);
    SplitNoSeparator([], c);
    assert a + [c] == a + [c] + [];
    SplitAppend(a, c, []);
  }

  lemma TrailingDigitsOr(a: string)
    requires AllDigits(a)
    ensures DigitsOr(a + ",", ',') && ',' in a + ","
  {
    var v := a + ",";
    assert v[|a|] == ',';
    forall i | 0 <= i < |v| ensures IsDigit(v[i]) || v[i] == ',' {
      if i < |a| { assert v[i] == a[i]; }
    }
  }

  lemma TrailingRemove(a: string, c: char)
    requires c !in a
    ensures Remove(a + [c], c) == a
  {
    RemoveLast(a, c);
    RemoveAbsent(a, c);
  }

  lemma LeadingCommaUnsigned(f: string)
    requires AllDigits(f) && f != []
    ensures Unsigned("," + f) == Some(Decimal(Value(f), 0))
  {
    var v := "," + f;
    DigitsExclude(f, '.');
    assert '.' !in v;
    NoPointNotAmerican(v);
    DigitsExclude(f, ',');
    LeadingSplit(f, ',');
    LeadingDigitsOr(f);
    LeadingRemove(f, ',');
    CommaIntegerUnsigned(v);
  }

  lemma LeadingSplit(f: string, c: char)
    requires c !in f
    ensures Split([c] + f, c) == [[], f]
  {
    SplitNoSeparator(f, c);
    assert [c] + f == [] + [c] + f;
    SplitAppend([], c, f);
  }

  lemma LeadingDigitsOr(f: string)
    requires AllDigits(f)
    ensures DigitsOr("," + f, ',') && ',' in "," + f
  {
    var v := "," + f;
    assert v[0] == ',';
    forall i | 0 <= i < |v| ensures IsDigit(v[i]) || v[i] == ',' {
      if i > 0 { assert v[i] == f[i - 1]; }
    }
  }

  lemma LeadingRemove(f: string, c: char)
    requires c !in f
    ensures Remove([c] + f, c) == f
  {
    assert ([c] + f)[1..] == f;
    RemoveAbsent(f, c);
  }

  /** Commas alone leave nothing for `float` to read. */
  lemma OnlyCommasRejected()
    ensures ParseNumber(",,").None?
  {
    var v := ",,";
    Unsignedly(v);
    NoPointNotAmerican(v);
    assert v == [] + "," + [] + "," + [];
    TwoCommasNotEuropean([], [], []);
    assert v[0] == ',';
    CommaIntegerUnsigned(v);
    RemoveSeparator([] + "," + [], ',', []);
    RemoveSeparator([], ',', []);
  }

  // ---------------------------------------------------------------------------------
  // Examples
  // ---------------------------------------------------------------------------------

  /** `"140,000"` is `140.000`, that is 140, not 140000. */
  lemma ThousandsCommaIsDecimal()
    ensures ParseNumber("140,000") == Some(Decimal(140000, 3))
    ensures SameValue(Decimal(140000, 3), Decimal(140, 0))
  {
    Mag140000();
    DecimalCommaWins("140", "000");
    assert "140,000" == "140" + "," + "000";
  }

  lemma Mag140000()
    ensures AllDigits("140") && AllDigits("000") && Mag("140", "000") == 140000
    ensures Pow10(3) == 1000
  {
    var p, f := "140", "000";
    assert Value(p) == 140 by { assert Value(p[..1]) == 1; assert Value(p[..2]) == 14; }
    assert Value(f) == 0 by { assert Value(f[..1]) == 0; assert Value(f[..2]) == 0; }
    MagValue(p, f);
    assert Pow10(3) == 1000;
  }

  lemma Value1234()
    ensures Value("1234") == 1234
  {
    assert "12"[..1] == "1" && "123"[..2] == "12" && "1234"[..3] == "123";
  }

  lemma Value56()
    ensures Value("56") == 56
  {
    assert "56"[..1] == "5";
  }

  lemma Value1234567()
    ensures Value("1234567") == 1234567
  {
    Value1234();
    assert "12345"[..4] == "1234" && "123456"[..5] == "12345" && "1234567"[..6] == "123456";
  }

  lemma Mag123456()
    ensures "1" + "234" == "1234" && Mag("1234", "56") == 123456
  {
    Value1234();
    Value56();
    MagValue("1234", "56");
    assert Pow10(2) == 100;
  }

  lemma SpellCommaInteger()
    ensures "1" + "," + "234" + "," + "567" == "1,234,567" && "1" + "234" + "567" == "1234567"
    ensures Value("1234567") == 1234567
  {
    Value1234567();
  }

  /** `"1,234.56"` reads as 1234.56. */
  lemma AmericanExample()
    ensures ParseNumber("1,234.56") == Some(Decimal(123456, 2))
  {
    Mag123456();
    assert "1" + "," + "234" + "." + "56" == "1,234.56";
    AmericanReads("1", "234", "56");
  }

  /** `"1.234,56"` reads as 1234.56. */
  lemma EuropeanExample()
    ensures ParseNumber("1.234,56") == Some(Decimal(123456, 2))
  {
    Mag123456();
    assert "1" + "." + "234" + "," + "56" == "1.234,56";
    EuropeanReads("1", "234", "56");
  }

  /** `"-5"` reads as -5. */
  lemma NegativeExample()
    ensures ParseNumber("-5") == Some(Decimal(-5, 0))
  {
    FiveReads("5");
  }

  lemma FiveReads(d: string)
    requires d == "5"
    ensures ParseNumber("-" + d) == Some(Decimal(-5, 0))
  {
    NegativeIntegerReads(d);
    assert Value(d) == 5;
  }

  /** `"1,234,567"` is 1234567. */
  lemma CommaIntegerExample()
    ensures ParseNumber("1,234,567") == Some(Decimal(1234567, 0))
  {
    SpellCommaInteger();
    TwoCommasInteger("1", "234", "567");
  }

  /** `",5"` is 5. */
  lemma LeadingCommaExample()
    ensures ParseNumber(",5") == Some(Decimal(5, 0))
  {
    var f := "5";
    LeadingCommaInteger(f);
    assert ",5" == "," + f;
    assert Value(f) == 5;
  }

  /** `"1.2.3"` is not a number. */
  lemma TwoPointsExample()
    ensures ParseNumber("1.2.3").None?
  {
    assert "1.2.3" == "1" + "." + "2" + "." + "3";
    TwoPointsRejected("1", "2", "3");
  }

  // ---------------------------------------------------------------------------------
  // f"{v:,.2f}"
  // ---------------------------------------------------------------------------------

  /** The number rounded to hundredths, ties to even, as an integer count of hundredths. */
  function Cents(d: Decimal): int {
    if d.scale <= 2 then
      d.mantissa * Pow10(2 - d.scale)
    else
      var q := Pow10(d.scale - 2);
      RoundHalfEven(d.mantissa / q, d.mantissa % q, q)
  }

  /** `fl + rem/q` rounded to an integer, ties to the even neighbour. */
  function RoundHalfEven(fl: int, rem: int, q: int): int {
    if 2 * rem > q then fl + 1
    else if 2 * rem < q then fl
    else if fl % 2 == 0 then fl
    else fl + 1
  }

  /** Rounding keeps the sign, so the display's minus sign agrees with the rounded value. */
  lemma CentsSign(d: Decimal)
    ensures d.mantissa >= 0 ==> Cents(d) >= 0
    ensures d.mantissa <= 0 ==> Cents(d) <= 0
  {
    if d.scale <= 2 {
      MulSign(d.mantissa, Pow10(2 - d.scale));
    } else {
      FloorSign(d.mantissa, Pow10(d.scale - 2));
    }
  }

  lemma MulSign(m: int, p: nat)
    ensures m >= 0 ==> m * p >= 0
    ensures m <= 0 ==> m * p <= 0
  {
  }

  /** The floor quotient has the sign of the numerator; a non-positive numerator with a
      zero quotient has a zero remainder. */
  lemma FloorSign(m: int, q: int)
    requires q >= 1
    ensures m >= 0 ==> RoundHalfEven(m / q, m % q, q) >= 0
    ensures m <= 0 ==> RoundHalfEven(m / q, m % q, q) <= 0
  {
    var fl, rem := m / q, m % q;
    assert m == fl * q + rem && 0 <= rem < q;
    MulBound(fl, q);
  }

  lemma MulBound(fl: int, q: int)
    requires q >= 1
    ensures fl < 0 ==> fl * q <= -q
    ensures fl > 0 ==> fl * q >= q
  {
  }

  /** Digits grouped by threes from the right with commas (the `,` option). */
  function Group(s: string): (r: string)
    ensures |s| > 0 ==> |r| > 0
    decreases |s|
  {
    if |s| <= 3 then s else Group(s[..|s| - 3]) + "," + s[|s| - 3..]
  }

  /** `f"{v:,.2f}"`: a minus sign for a negative number, the grouped integer part, a point
      and two digits of the number rounded to hundredths. */
  function Display2(d: Decimal): string {
    DisplayCents(d.mantissa < 0, Cents(d))
  }

  /** The display of a count of hundredths, with the sign of the unrounded number. */
  function DisplayCents(negative: bool, c: int): string {
    var m: nat := if c < 0 then -c else c;
    DisplayText(negative, DigitsOf(m / 100), PadDigits(m % 100, 2))
  }

  /** An optional minus sign, the integer digits grouped by threes, a point, the fraction. */
  function DisplayText(negative: bool, ip: string, fp: string): string {
    (if negative then "-" else "") + (Group(ip) + "." + fp)
  }

  /** The grouped digits are digits and commas. */
  lemma {:induction false} GroupNumeric(s: string)
    requires AllDigits(s)
    ensures DigitsOr(Group(s), ',')
    decreases |s|
  {
    if |s| > 3 {
      var h, t := s[..|s| - 3], s[|s| - 3..];
      GroupNumeric(h);
      DigitsOrCommaTail(Group(h), t);
    }
  }

  /** Removing the commas gives the digits back. */
  lemma {:induction false} GroupRemove(s: string)
    requires AllDigits(s)
    ensures Remove(Group(s), ',') == s
    decreases |s|
  {
    DigitsExclude(s, ',');
    if |s| > 3 {
      var h, t := s[..|s| - 3], s[|s| - 3..];
      GroupRemove(h);
      RemoveSeparator(Group(h), ',', t);
      assert h + t == s;
    } else {
      RemoveAbsent(s, ',');
    }
  }

  /** The grouped integer part, a point and two digits are an American-shaped reading. */
  lemma DisplayBody(ip: string, fp: string)
    requires AllDigits(ip) && ip != [] && AllDigits(fp) && fp != []
    ensures Unsigned(Group(ip) + "." + fp) == Some(Decimal(Mag(ip, fp), |fp|))
  {
    GroupNumeric(ip);
    GroupRemove(ip);
    AmericanUnsigned(Group(ip), fp);
  }

  /** The display text reads back as its digits, negated under a minus sign. */
  lemma DisplayTextReads(negative: bool, ip: string, fp: string)
    requires AllDigits(ip) && ip != [] && AllDigits(fp) && fp != []
    ensures ParseNumber(DisplayText(negative, ip, fp)) == WithSign(negative, Some(Decimal(Mag(ip, fp), |fp|)))
  {
    BodyTidy(ip, fp);
    DisplayBody(ip, fp);
    SignedReads(negative, Group(ip) + "." + fp, Mag(ip, fp), |fp|);
  }

  /** An optional minus sign before a tidy unsigned reading negates it. */
  lemma SignedReads(negative: bool, body: string, n: nat, s: nat)
    requires body != [] && !IsSpace(body[0]) && !IsSpace(body[|body| - 1]) && ' ' !in body && !Negative(body)
    requires Unsigned(body) == Some(Decimal(n, s))
    ensures ParseNumber((if negative then "-" else "") + body) == WithSign(negative, Some(Decimal(n, s)))
  {
    SignedText(negative, body);
  }

  /** A text with an optional minus sign is its own normal form, and its sign and its
      unsigned part are what was put together. */
  lemma SignedText(negative: bool, body: string)
    requires body != [] && !IsSpace(body[0]) && !IsSpace(body[|body| - 1]) && ' ' !in body && !Negative(body)
    ensures var t := (if negative then "-" else "") + body;
      Strip(t) == t && Remove(t, ' ') == t && Negative(t) == negative && Body(t) == body
  {
    var t := (if negative then "-" else "") + body;
    assert t[|t| - 1] == body[|body| - 1];
    if negative {
      assert t[1..] == body;
    } else {
      assert t == body;
    }
    StripUnchanged(t);
    RemoveAbsent(t, ' ');
  }

  lemma MagOf(c: nat)
    ensures Mag(DigitsOf(c / 100), PadDigits(c % 100, 2)) == c
  {
    var q, r := c / 100, c % 100;
    MagValue(DigitsOf(q), PadDigits(r, 2));
    assert Value(DigitsOf(q)) == q && Value(PadDigits(r, 2)) == r && |PadDigits(r, 2)| == 2;
    assert Pow10(2) == 100;
    assert q * 100 + r == c;
  }

  lemma BodyTidy(ip: string, fp: string)
    requires AllDigits(ip) && ip != [] && AllDigits(fp) && fp != []
    ensures var body := Group(ip) + "." + fp;
      body != [] && !IsSpace(body[0]) && !IsSpace(body[|body| - 1]) && ' ' !in body && !Negative(body)
  {
    var g := Group(ip);
    var body := g + "." + fp;
    GroupNumeric(ip);
    DigitsOrExclude(g, ',', ' ');
    DigitsExclude(fp, ' ');
    assert body[0] == g[0] && body[|body| - 1] == fp[|fp| - 1];
  }

  /** The display of a number parses back as the number rounded to hundredths. The sheet's
      column widths are measured on this display. */
  lemma DisplayRoundTrip(d: Decimal)
    ensures ParseNumber(Display2(d)) == Some(Decimal(Cents(d), 2))
  {
    CentsSign(d);
    CentsDisplayReads(d.mantissa < 0, Cents(d));
  }

  /** A count of hundredths displayed with a sign that agrees with it reads back as itself. */
  lemma CentsDisplayReads(negative: bool, c: int)
    requires if negative then c <= 0 else c >= 0
    ensures ParseNumber(DisplayCents(negative, c)) == Some(Decimal(c, 2))
  {
    var m: nat := if c < 0 then -c else c;
    MagOf(m);
    DisplayTextReads(negative, DigitsOf(m / 100), PadDigits(m % 100, 2));
  }
}
