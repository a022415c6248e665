/** Conversion of sky coordinates between sexagesimal strings and degrees
    (ModelManipulator.hmsStringToDeg, dmsStringToDeg, degToHMSString and
    degToDMSString).

    Both parsers are four-phase character scanners: the leading field (hours
    or degrees), the minutes, the seconds and the decimal fraction of a
    second.  Each phase accumulates `acc*10 + digit` and stops at its own
    separators.  The formatters split an integer count of seconds "ticks"
    (1/10^secDigits of a second of time or arc) with div/mod and print the
    fields zero-padded.  Values are computed exactly over `real`. */
module Sexagesimal {
  import opened Results

  // ---------------------------------------------------------------------
  // Digits
  // ---------------------------------------------------------------------

  predicate IsDigit(c: char) { '0' <= c <= '9' }

  function DigitValue(c: char): nat
    requires IsDigit(c)
  {
    c as int - '0' as int
  }

  function DigitChar(d: nat): (c: char)
    requires d < 10
    ensures IsDigit(c) && DigitValue(c) == d
  {
    (d + '0' as int) as char
  }

  predicate AllDigits(s: string)
  {
    forall i :: 0 <= i < |s| ==> IsDigit(s[i])
  }

  /** The value a parser phase accumulates from a run of digits, starting from `acc`. */
  function Accumulate(acc: nat, ds: string): nat
    requires AllDigits(ds)
    decreases |ds|
  {
    if ds == [] then acc else Accumulate(acc * 10 + DigitValue(ds[0]), ds[1..])
  }

  function Pow10(n: nat): (r: nat)
    ensures r >= 1
  {
    if n == 0 then 1 else 10 * Pow10(n - 1)
  }

  /** Decimal digits of `n` without leading zeros (`str(n)` in Python). */
  function NatDigits(n: nat): (s: string)
    ensures |s| >= 1 && AllDigits(s)
    ensures Accumulate(0, s) == n
  {
    if n < 10 then [DigitChar(n)]
    else
      var s := NatDigits(n / 10) + [DigitChar(n % 10)];
      AccumulateSnoc(0, NatDigits(n / 10), DigitChar(n % 10));
      s
  }

  function Zeros(k: nat): (s: string)
    ensures |s| == k && AllDigits(s)
  {
    if k == 0 then [] else ['0'] + Zeros(k - 1)
  }

  /** Left-pads a digit string with '0' up to `width` characters. */
  function ZeroPad(ds: string, width: int): (s: string)
    requires AllDigits(ds)
    ensures AllDigits(s)
    ensures |s| == if |ds| >= width then |ds| else width
    ensures Accumulate(0, s) == Accumulate(0, ds)
  {
    if |ds| >= width then ds
    else
      var z := Zeros(width - |ds|);
      AccumulateAppend(0, z, ds);
      AccumulateZeros(width - |ds|);
      z + ds
  }

  /** Python's `'%0<width>d' % n`: the sign counts towards the width. */
  function FormatInt(n: int, width: int): (s: string)
    ensures n >= 0 ==> AllDigits(s) && Accumulate(0, s) == n
    ensures n >= 0 ==> |s| == if |NatDigits(n)| >= width then |NatDigits(n)| else width
    ensures n < 0 ==> |s| >= 2 && s[0] == '-'
  {
    if n >= 0 then ZeroPad(NatDigits(n), width)
    else "-" + ZeroPad(NatDigits(-n), width - 1)
  }

  lemma {:induction false} AccumulateAppend(acc: nat, a: string, b: string)
    requires AllDigits(a) && AllDigits(b)
    ensures AllDigits(a + b)
    ensures Accumulate(acc, a + b) == Accumulate(Accumulate(acc, a), b)
    decreases |a|
  {
    if a != [] {
      assert (a + b)[0] == a[0];
      assert (a + b)[1..] == a[1..] + b;
      AccumulateAppend(acc * 10 + DigitValue(a[0]), a[1..], b);
    } else {
      assert a + b == b;
    }
  }

  lemma {:induction false} AccumulateSnoc(acc: nat, a: string, c: char)
    requires AllDigits(a) && IsDigit(c)
    ensures AllDigits(a + [c])
    ensures Accumulate(acc, a + [c]) == Accumulate(acc, a) * 10 + DigitValue(c)
  {
    AccumulateAppend(acc, a, [c]);
    assert [c][1..] == [];
  }

  lemma {:induction false} AccumulateZeros(k: nat)
    ensures Accumulate(0, Zeros(k)) == 0
  {
    if k > 0 {
      assert Zeros(k)[1..] == Zeros(k - 1);
      AccumulateZeros(k - 1);
    }
  }

  /** A number below 10^k has at most k digits. */
  lemma {:induction false} NatDigitsLength(n: nat, k: nat)
    requires k >= 1 && n < Pow10(k)
    ensures |NatDigits(n)| <= k
  {
    if n >= 10 {
      assert k >= 2;
      assert n / 10 < Pow10(k - 1);
      NatDigitsLength(n / 10, k - 1);
    }
  }

  // ---------------------------------------------------------------------
  // Parsing (ModelManipulator.py:93-222)
  // ---------------------------------------------------------------------

  /** Separators that end the leading (hours or degrees) field. */
  const LeadSeparators: set<char> := {':', 'h', ' '}
  /** Separators that end the minutes field. */
  const MinuteSeparators: set<char> := {':', 'm', ' '}

  /** Phases one and two: digits up to a separator, which is consumed.
      Any other character makes the whole parse fail. Returns the field
      value and the text that is left. */
  function ReadField(s: string, acc: nat, seps: set<char>): Option<(nat, string)>
    decreases |s|
  {
    if s == [] then Some((acc, []))
    else if IsDigit(s[0]) then ReadField(s[1..], acc * 10 + DigitValue(s[0]), seps)
    else if s[0] in seps then Some((acc, s[1..]))
    else None
  }

  /** Phase three: digits up to a '.' (consumed) or an 's' (left in place). */
  function ReadSeconds(s: string, acc: nat): Option<(nat, string)>
    decreases |s|
  {
    if s == [] then Some((acc, []))
    else if IsDigit(s[0]) then ReadSeconds(s[1..], acc * 10 + DigitValue(s[0]))
    else if s[0] == '.' then Some((acc, s[1..]))
    else if s[0] == 's' then Some((acc, s))
    else None
  }

  /** Phase four: fraction digits up to an 's'; returns the fraction's
      numerator and its power-of-ten denominator. */
  function ReadFraction(s: string, acc: nat, scale: nat): (r: Option<(nat, nat)>)
    ensures r.Some? ==> r.value.1 >= scale
    decreases |s|
  {
    if s == [] then Some((acc, scale))
    else if IsDigit(s[0]) then ReadFraction(s[1..], acc * 10 + DigitValue(s[0]), scale * 10)
    else if s[0] == 's' then Some((acc, scale))
    else None
  }

  /** The integers the four phases accumulate. */
  datatype Fields = Fields(lead: nat, mins: nat, secs: nat, fracs: nat, frac10s: nat)

  function ReadFields(s: string): (r: Option<Fields>)
    ensures r.Some? ==> r.value.frac10s >= 1
  {
    var lead :- ReadField(s, 0, LeadSeparators);
    var mins :- ReadField(lead.1, 0, MinuteSeparators);
    var secs :- ReadSeconds(mins.1, 0);
    var frac :- ReadFraction(secs.1, 0, 1);
    Some(Fields(lead.0, mins.0, secs.0, frac.0, frac.1))
  }

  /** `lead + (mins + (secs + fracs/frac10s)/60)/60`, exactly. */
  function Value(f: Fields): real
    requires f.frac10s >= 1
  {
    f.lead as real + (f.mins as real + (f.secs as real + f.fracs as real / f.frac10s as real) / 60.0) / 60.0
  }

  /** hmsStringToDeg: right ascension in degrees (15 degrees per hour).
      It has no sign, so it never reads a negative angle, and the empty
      string runs through all four phases to 0 degrees. */
  function HmsStringToDeg(s: string): (r: Option<real>)
    ensures s == [] ==> r == Some(0.0)
    ensures |s| > 0 && s[0] == '-' ==> r == None
    ensures r.Some? ==> r.value >= 0.0
  {
    var f :- ReadFields(s);
    Some(15.0 * Value(f))
  }

  /** The sign read by dmsStringToDeg and the text after it. */
  function SplitSign(s: string): (real, string)
    requires s != []
  {
    if s[0] == '-' then (-1.0, s[1..])
    else if s[0] == '+' then (1.0, s[1..])
    else (1.0, s)
  }

  /** dmsStringToDeg: declination in degrees; the empty string is refused.
      After an optional sign the text has the grammar of a right ascension
      in hours, read without the factor of 15. */
  function DmsStringToDeg(s: string): (r: Option<real>)
    ensures s == [] ==> r == None
    ensures |s| > 0 && s[0] != '-' && s[0] != '+' ==>
              r == (match HmsStringToDeg(s) case None => None case Some(v) => Some(v / 15.0))
    ensures |s| > 0 && s[0] == '+' ==>
              r == (match HmsStringToDeg(s[1..]) case None => None case Some(v) => Some(v / 15.0))
    ensures |s| > 0 && s[0] == '-' ==>
              r == (match HmsStringToDeg(s[1..]) case None => None case Some(v) => Some(-(v / 15.0)))
  {
    if |s| == 0 then None
    else
      var (sign, rest) := SplitSign(s);
      var f :- ReadFields(rest);
      Some(sign * Value(f))
  }

  // ---------------------------------------------------------------------
  // Formatting (ModelManipulator.py:224-283)
  // ---------------------------------------------------------------------

  /** The tick multiplier: 10^secDigits, and 1 when secDigits <= 0. */
  function Multiplier(secDigits: int): (m: nat)
    ensures m >= 1
  {
    if secDigits > 0 then Pow10(secDigits) else 1
  }

  /** Floored quotient (Python's `//`, and `floor(a / float(b))`), by
      repeated subtraction; `FloorDivMod` shows it is Dafny's `a / b`. */
  function FloorDiv(a: int, b: nat): (q: int)
    requires b >= 1
    ensures a >= 0 ==> q >= 0
    decreases if a >= 0 then a else b - a
  {
    if 0 <= a < b then 0
    else if a >= b then 1 + FloorDiv(a - b, b)
    else FloorDiv(a + b, b) - 1
  }

  /** Floored remainder (Python's `%` for a positive divisor). */
  function FloorMod(a: int, b: nat): (r: nat)
    requires b >= 1
    ensures r < b
    decreases if a >= 0 then a else b - a
  {
    if 0 <= a < b then a
    else if a >= b then FloorMod(a - b, b)
    else FloorMod(a + b, b)
  }

  lemma {:induction false} FloorDivMod(a: int, b: nat)
    requires b >= 1
    ensures a == FloorDiv(a, b) * b + FloorMod(a, b)
    ensures FloorDiv(a, b) == a / b && FloorMod(a, b) == a % b
    decreases if a >= 0 then a else b - a
  {
    if 0 <= a < b {
    } else if a >= b {
      FloorDivMod(a - b, b);
    } else {
      FloorDivMod(a + b, b);
    }
    DivUnique(a, b, FloorDiv(a, b), FloorMod(a, b));
  }

  /** Python 2 `int(a / float(b))`: division truncated toward zero. */
  function TruncDiv(a: int, b: nat): int
    requires b >= 1
  {
    if a >= 0 then FloorDiv(a, b) else -FloorDiv(-a, b)
  }

  /** The fields printed for a tick count. */
  datatype Ticks = Ticks(lead: int, mins: nat, secs: nat, frac: nat)

  /** Splits a tick count into leading field, minutes, seconds and
      fraction. The leading field is truncated toward zero (hours do not
      wrap at 24). Minutes and seconds are `'%02d'` of Python's floored
      float modulo of the quotients, which is the floored integer modulo
      of the floored quotients: `(ticks/(60m)) % 60` and `(ticks/m) % 60`,
      with the first quotient taken as `(ticks/m)/60`. */
  function SplitTicks(ticks: int, m: nat): (t: Ticks)
    requires m >= 1
    ensures t.mins < 60 && t.secs < 60 && t.frac < m
    ensures ticks >= 0 ==> t.lead >= 0
  {
    var u := FloorDiv(ticks, m);
    Ticks(TruncDiv(ticks, 3600 * m), FloorMod(FloorDiv(u, 60), 60), FloorMod(u, 60), FloorMod(ticks, m))
  }

  /** For a non-negative tick count the four fields are its mixed-radix
      digits: nothing is lost by the split. */
  lemma SplitTicksRecombine(ticks: nat, m: nat)
    requires m >= 1
    ensures var t := SplitTicks(ticks, m);
            t.lead >= 0 && ticks == ((t.lead * 60 + t.mins) * 60 + t.secs) * m + t.frac
  {
    var u := ticks / m;
    var v := u / 60;
    FloorDivMod(ticks, m);
    FloorDivMod(u, 60);
    FloorDivMod(v, 60);
    FloorDivMod(ticks, 3600 * m);
    DivDiv(ticks, m, 3600);
    DivDiv(u, 60, 60);
    assert m * 3600 == 3600 * m;
    assert ticks / (3600 * m) == v / 60;
    assert ticks == u * m + ticks % m;
    assert u == v * 60 + u % 60;
    assert v == (v / 60) * 60 + v % 60;
  }

  lemma MulNonNegative(x: int, y: int)
    requires x >= 0 && y >= 0
    ensures x * y >= 0
  {
  }

  /** Multiplying by a positive number preserves `>=`. */
  lemma MulMonotone(x: int, y: int, b: int)
    requires b > 0
    ensures x >= y ==> x * b >= y * b
  {
    if x >= y {
      MulNonNegative(x - y, b);
    }
  }

  /** The quotient and remainder are the only ones with `0 <= r < b`. */
  lemma DivUnique(a: int, b: int, q: int, r: int)
    requires b > 0 && 0 <= r < b && a == q * b + r
    ensures a / b == q && a % b == r
  {
    var q' := a / b;
    var r' := a % b;
    assert a == q' * b + r';
    MulMonotone(q, q' + 1, b);
    MulMonotone(q', q + 1, b);
    assert (q' + 1) * b == q' * b + b;
    assert (q + 1) * b == q * b + b;
  }

  lemma DivDiv(a: nat, b: nat, c: nat)
    requires b > 0 && c > 0
    ensures (a / b) / c == a / (b * c)
  {
    var q := a / (b * c);
    var r := a % (b * c);
    assert a == q * (b * c) + r;
    assert r == (r / b) * b + r % b;
    assert a == (q * c + r / b) * b + r % b;
    DivUnique(a, b, q * c + r / b, r % b);
    MulMonotone(r / b, c, b);
    assert c * b == b * c;
    DivUnique(a / b, c, q, r / b);
  }

  /** degToHMSString for a tick count floor(deg * 10^secDigits * 3600 / 15). */
  function DegToHmsString(ticks: int, secDigits: int, hmssep: bool, nosep: bool): (r: string)
    ensures |r| > 0
    ensures r[|r| - 1] == 's' <==> hmssep && !nosep
  {
    var t := SplitTicks(ticks, Multiplier(secDigits));
    var hsep := if nosep then "" else if hmssep then "h" else ":";
    var msep := if nosep then "" else if hmssep then "m" else ":";
    var suffix := if !nosep && hmssep then "s" else "";
    FieldsEnd(t, hsep, msep, secDigits, suffix);
    FormatFields(t, hsep, msep, secDigits, suffix)
  }

  /** degToDMSString for a tick count floor(|deg| * 10^secDigits * 3600)
      and the sign of `deg`. */
  function DegToDmsString(ticks: nat, negative: bool, secDigits: int, dmssep: bool, nosep: bool): (r: string)
    ensures |r| > 1
    ensures r[0] == '-' <==> negative
    ensures r[|r| - 1] == 's' <==> dmssep && !nosep
  {
    var t := SplitTicks(ticks, Multiplier(secDigits));
    var dsep := if nosep then "" else if dmssep then "d" else ":";
    var msep := if nosep then "" else if dmssep then "m" else ":";
    var suffix := if !nosep && dmssep then "s" else "";
    FieldsEnd(t, dsep, msep, secDigits, suffix);
    (if negative then "-" else "+") + FormatFields(t, dsep, msep, secDigits, suffix)
  }

  /** The text shared by both formatters: `'%02d%s%02d%s%02d'`, the
      optional fraction and the optional trailing 's'. */
  function FormatFields(t: Ticks, lsep: string, msep: string, secDigits: int, suffix: string): string
  {
    FormatInt(t.lead, 2) + lsep + FormatInt(t.mins, 2) + msep + FormatInt(t.secs, 2)
      + FractionText(t.frac, secDigits) + suffix
  }

  /** `'.%0<secDigits>d' % frac` when secDigits > 0, otherwise nothing. */
  function FractionText(frac: nat, secDigits: int): string
  {
    if secDigits > 0 then "." + FormatInt(frac, secDigits) else ""
  }

  // ---------------------------------------------------------------------
  // Properties
  // ---------------------------------------------------------------------

  lemma {:induction false} ReadFieldDigits(ds: string, rest: string, acc: nat, seps: set<char>)
    requires AllDigits(ds)
    ensures ReadField(ds + rest, acc, seps) == ReadField(rest, Accumulate(acc, ds), seps)
    decreases |ds|
  {
    if ds == [] {
      assert ds + rest == rest;
    } else {
      assert (ds + rest)[0] == ds[0];
      assert (ds + rest)[1..] == ds[1..] + rest;
      ReadFieldDigits(ds[1..], rest, acc * 10 + DigitValue(ds[0]), seps);
    }
  }

  lemma {:induction false} ReadSecondsDigits(ds: string, rest: string, acc: nat)
    requires AllDigits(ds)
    ensures ReadSeconds(ds + rest, acc) == ReadSeconds(rest, Accumulate(acc, ds))
    decreases |ds|
  {
    if ds == [] {
      assert ds + rest == rest;
    } else {
      assert (ds + rest)[0] == ds[0];
      assert (ds + rest)[1..] == ds[1..] + rest;
      ReadSecondsDigits(ds[1..], rest, acc * 10 + DigitValue(ds[0]));
    }
  }

  lemma {:induction false} ReadFractionDigits(ds: string, rest: string, acc: nat, scale: nat)
    requires AllDigits(ds)
    ensures ReadFraction(ds + rest, acc, scale) == ReadFraction(rest, Accumulate(acc, ds), scale * Pow10(|ds|))
    decreases |ds|
  {
    if ds == [] {
      assert ds + rest == rest;
    } else {
      assert (ds + rest)[0] == ds[0];
      assert (ds + rest)[1..] == ds[1..] + rest;
      ReadFractionDigits(ds[1..], rest, acc * 10 + DigitValue(ds[0]), scale * 10);
      assert scale * 10 * Pow10(|ds[1..]|) == scale * Pow10(|ds|);
    }
  }

  /** The sexagesimal value of split ticks is the tick count over 3600*M. */
  /** The sexagesimal value of the split of a non-negative tick count is
      that count in units of 3600*m. */
  lemma SplitTicksValue(ticks: nat, m: nat)
    requires m >= 1
    ensures var t := SplitTicks(ticks, m);
            Value(Fields(t.lead, t.mins, t.secs, t.frac, m)) == ticks as real / (3600 * m) as real
  {
    var t := SplitTicks(ticks, m);
    SplitTicksRecombine(ticks, m);
    TicksValue(ticks, t.lead, t.mins, t.secs, t.frac, m);
  }

  lemma TicksValue(ticks: nat, h: nat, m: nat, s: nat, f: nat, mult: nat)
    requires mult >= 1 && ticks == ((h * 60 + m) * 60 + s) * mult + f
    ensures Value(Fields(h, m, s, f, mult)) == ticks as real / (3600 * mult) as real
  {
    var M := mult as real;
    var sec := s as real + f as real / M;
    assert sec * M == s as real * M + f as real;
    var mins := m as real + sec / 60.0;
    assert mins * (60.0 * M) == m as real * 60.0 * M + s as real * M + f as real;
    var v := h as real + mins / 60.0;
    assert v * (3600.0 * M) == h as real * 3600.0 * M + m as real * 60.0 * M + s as real * M + f as real;
    assert ticks as real == h as real * 3600.0 * M + m as real * 60.0 * M + s as real * M + f as real;
    assert (3600 * mult) as real == 3600.0 * M;
  }

  /** Phases one to three over a layout `A lsep B msep C rest` whose fields
      are digit runs. */
  lemma ReadHead(A: string, lsep: string, B: string, msep: string, C: string, rest: string)
    requires AllDigits(A) && AllDigits(B) && AllDigits(C)
    requires lsep == ":" || lsep == "h"
    requires msep == ":" || msep == "m"
    ensures ReadField(A + lsep + B + msep + C + rest, 0, LeadSeparators)
         == Some((Accumulate(0, A), B + msep + C + rest))
    ensures ReadField(B + msep + C + rest, 0, MinuteSeparators) == Some((Accumulate(0, B), C + rest))
    ensures ReadSeconds(C + rest, 0) == ReadSeconds(rest, Accumulate(0, C))
  {
    var R1 := lsep + (B + msep + C + rest);
    assert A + lsep + B + msep + C + rest == A + R1;
    ReadFieldDigits(A, R1, 0, LeadSeparators);
    assert R1[0] in LeadSeparators && R1[1..] == B + msep + C + rest;
    var R2 := msep + (C + rest);
    assert B + msep + C + rest == B + R2;
    ReadFieldDigits(B, R2, 0, MinuteSeparators);
    assert R2[0] in MinuteSeparators && R2[1..] == C + rest;
    ReadSecondsDigits(C, rest, 0);
  }

  /** Phases three (after the seconds digits) and four over the fraction
      text a formatter writes and an optional trailing 's'. */
  lemma ReadTail(frac: nat, secDigits: int, suffix: string, secs: nat)
    requires frac < Multiplier(secDigits)
    requires suffix == "" || suffix == "s"
    ensures ReadSeconds(FractionText(frac, secDigits) + suffix, secs).Some?
    ensures var r := ReadSeconds(FractionText(frac, secDigits) + suffix, secs).value;
            r.0 == secs && ReadFraction(r.1, 0, 1) == Some((frac, Multiplier(secDigits)))
  {
    if secDigits > 0 {
      var P := FormatInt(frac, secDigits);
      assert FractionText(frac, secDigits) + suffix == "." + (P + suffix);
      assert ("." + (P + suffix))[0] == '.' && ("." + (P + suffix))[1..] == P + suffix;
      NatDigitsLength(frac, secDigits);
      ReadFractionDigits(P, suffix, 0, 1);
    } else {
      assert FractionText(frac, secDigits) + suffix == suffix;
    }
  }

  /** The four phases read back exactly the fields a formatter printed,
      for the ':' separators and for the 'h'/'m' (or 'd'/'m') ones the
      parsers accept. */
  lemma ReadFormattedFields(t: Ticks, secDigits: int, lsep: string, msep: string, suffix: string)
    requires t.lead >= 0 && t.frac < Multiplier(secDigits)
    requires lsep == ":" || lsep == "h"
    requires msep == ":" || msep == "m"
    requires suffix == "" || suffix == "s"
    ensures ReadFields(FormatFields(t, lsep, msep, secDigits, suffix))
         == Some(Fields(t.lead, t.mins, t.secs, t.frac, Multiplier(secDigits)))
  {
    var A := FormatInt(t.lead, 2);
    var B := FormatInt(t.mins, 2);
    var C := FormatInt(t.secs, 2);
    var rest := FractionText(t.frac, secDigits) + suffix;
    assert FormatFields(t, lsep, msep, secDigits, suffix) == A + lsep + B + msep + C + rest;
    ReadHead(A, lsep, B, msep, C, rest);
    ReadTail(t.frac, secDigits, suffix, t.secs);
  }

  /** dmsStringToDeg of a signed body: the sign times the body's value. */
  lemma DmsOfSigned(negative: bool, body: string)
    ensures DmsStringToDeg((if negative then "-" else "+") + body)
         == (match ReadFields(body)
             case None => None
             case Some(f) => Some((if negative then -1.0 else 1.0) * Value(f)))
  {
    var s := (if negative then "-" else "+") + body;
    assert s[0] == (if negative then '-' else '+') && s[1..] == body;
  }

  /** Round trip: hmsStringToDeg(degToHMSString(...)) recovers the tick
      count exactly, 15 * ticks / (3600 * 10^secDigits) degrees, for both
      the ':' and the 'h'/'m'/'s' layouts. */
  lemma HmsRoundTrip(ticks: nat, secDigits: int, hmssep: bool)
    ensures HmsStringToDeg(DegToHmsString(ticks, secDigits, hmssep, false))
         == Some(15.0 * (ticks as real / (3600 * Multiplier(secDigits)) as real))
  {
    var mult := Multiplier(secDigits);
    var t := SplitTicks(ticks, mult);
    HmsReadsTicks(ticks, secDigits, hmssep);
    SplitTicksValue(ticks, mult);
  }

  /** hmsStringToDeg reads back the fields of the split tick count. */
  lemma HmsReadsTicks(ticks: nat, secDigits: int, hmssep: bool)
    ensures var t := SplitTicks(ticks, Multiplier(secDigits));
            HmsStringToDeg(DegToHmsString(ticks, secDigits, hmssep, false))
              == Some(15.0 * Value(Fields(t.lead, t.mins, t.secs, t.frac, Multiplier(secDigits))))
  {
    var t := SplitTicks(ticks, Multiplier(secDigits));
    var lsep := if hmssep then "h" else ":";
    var msep := if hmssep then "m" else ":";
    var suffix := if hmssep then "s" else "";
    assert DegToHmsString(ticks, secDigits, hmssep, false) == FormatFields(t, lsep, msep, secDigits, suffix) by {
      HmsText(ticks, secDigits, hmssep, false);
    }
    HmsReadsFields(t, secDigits, hmssep);
  }

  /** hmsStringToDeg of the fields a formatter prints in either layout. */
  lemma HmsReadsFields(t: Ticks, secDigits: int, hmssep: bool)
    requires t.lead >= 0 && t.frac < Multiplier(secDigits)
    ensures HmsStringToDeg(FormatFields(t, if hmssep then "h" else ":", if hmssep then "m" else ":",
                                        secDigits, if hmssep then "s" else ""))
         == Some(15.0 * Value(Fields(t.lead, t.mins, t.secs, t.frac, Multiplier(secDigits))))
  {
    var lsep := if hmssep then "h" else ":";
    var msep := if hmssep then "m" else ":";
    var suffix := if hmssep then "s" else "";
    ReadFormattedFields(t, secDigits, lsep, msep, suffix);
  }

  /** degToHMSString writes FormatFields with its separators and suffix. */
  lemma HmsText(ticks: int, secDigits: int, hmssep: bool, nosep: bool)
    ensures DegToHmsString(ticks, secDigits, hmssep, nosep)
         == FormatFields(SplitTicks(ticks, Multiplier(secDigits)),
                         if nosep then "" else if hmssep then "h" else ":",
                         if nosep then "" else if hmssep then "m" else ":",
                         secDigits, if !nosep && hmssep then "s" else "")
  {
  }

  /** Round trip for declinations written with ':' separators: the sign
      and the tick count come back exactly. */
  lemma DmsRoundTrip(ticks: nat, negative: bool, secDigits: int)
    ensures DmsStringToDeg(DegToDmsString(ticks, negative, secDigits, false, false))
         == Some((if negative then -1.0 else 1.0) * (ticks as real / (3600 * Multiplier(secDigits)) as real))
  {
    var mult := Multiplier(secDigits);
    var t := SplitTicks(ticks, mult);
    DmsReadsTicks(ticks, negative, secDigits);
    SplitTicksValue(ticks, mult);
  }

  /** dmsStringToDeg reads back the sign and the fields of the split tick count. */
  lemma DmsReadsTicks(ticks: nat, negative: bool, secDigits: int)
    ensures var t := SplitTicks(ticks, Multiplier(secDigits));
            DmsStringToDeg(DegToDmsString(ticks, negative, secDigits, false, false))
              == Some((if negative then -1.0 else 1.0) * Value(Fields(t.lead, t.mins, t.secs, t.frac, Multiplier(secDigits))))
  {
    var t := SplitTicks(ticks, Multiplier(secDigits));
    var text := DegToDmsString(ticks, negative, secDigits, false, false);
    var signed := (if negative then "-" else "+") + FormatFields(t, ":", ":", secDigits, "");
    assert text == signed by {
      DmsText(ticks, negative, secDigits, false, false);
    }
    DmsReadsFields(t, negative, secDigits);
  }

  /** dmsStringToDeg of a sign and the fields a formatter prints with ':'. */
  lemma DmsReadsFields(t: Ticks, negative: bool, secDigits: int)
    requires t.lead >= 0 && t.frac < Multiplier(secDigits)
    ensures DmsStringToDeg((if negative then "-" else "+") + FormatFields(t, ":", ":", secDigits, ""))
         == Some((if negative then -1.0 else 1.0) * Value(Fields(t.lead, t.mins, t.secs, t.frac, Multiplier(secDigits))))
  {
    ReadFormattedFields(t, secDigits, ":", ":", "");
    DmsOfSigned(negative, FormatFields(t, ":", ":", secDigits, ""));
  }

  /** degToDMSString writes the sign, then FormatFields with its separators and suffix. */
  lemma DmsText(ticks: nat, negative: bool, secDigits: int, dmssep: bool, nosep: bool)
    ensures DegToDmsString(ticks, negative, secDigits, dmssep, nosep)
         == (if negative then "-" else "+")
            + FormatFields(SplitTicks(ticks, Multiplier(secDigits)),
                           if nosep then "" else if dmssep then "d" else ":",
                           if nosep then "" else if dmssep then "m" else ":",
                           secDigits, if !nosep && dmssep then "s" else "")
  {
  }

  /** A digit run followed by a character that is neither a digit nor a
      separator of the leading field fails phase one. */
  lemma LeadFieldRejects(A: string, c: char, rest: string)
    requires AllDigits(A) && !IsDigit(c) && c !in LeadSeparators
    ensures ReadField(A + [c] + rest, 0, LeadSeparators) == None
    ensures ReadFields(A + [c] + rest) == None
  {
    assert A + [c] + rest == A + ([c] + rest);
    ReadFieldDigits(A, [c] + rest, 0, LeadSeparators);
    assert ([c] + rest)[0] == c;
  }

  /** The 'd' after the degrees is not a separator of the leading field. */
  lemma DegreeSeparatorBodyRejected(t: Ticks, secDigits: int)
    requires t.lead >= 0
    ensures ReadFields(FormatFields(t, "d", "m", secDigits, "s")) == None
  {
    var A := FormatInt(t.lead, 2);
    var rest := FormatInt(t.mins, 2) + "m" + FormatInt(t.secs, 2) + FractionText(t.frac, secDigits) + "s";
    assert FormatFields(t, "d", "m", secDigits, "s") == A + ['d'] + rest;
    LeadFieldRejects(A, 'd', rest);
  }

  /** The 'd' that degToDMSString(dmssep=True) writes after the degrees is
      not one of the separators dmsStringToDeg accepts there, so that
      layout never parses. */
  lemma DmsDegreeSeparatorRejected(ticks: nat, negative: bool, secDigits: int)
    ensures DmsStringToDeg(DegToDmsString(ticks, negative, secDigits, true, false)) == None
  {
    var t := SplitTicks(ticks, Multiplier(secDigits));
    DmsText(ticks, negative, secDigits, true, false);
    DegreeSeparatorBodyRejected(t, secDigits);
    DmsOfSigned(negative, FormatFields(t, "d", "m", secDigits, "s"));
  }

  /** Without separators the leading field runs into the '.' of the fraction. */
  lemma NoSeparatorBodyRejected(t: Ticks, secDigits: int)
    requires t.lead >= 0 && secDigits > 0
    ensures ReadFields(FormatFields(t, "", "", secDigits, "")) == None
  {
    var A1 := FormatInt(t.lead, 2);
    var A2 := FormatInt(t.mins, 2);
    var A3 := FormatInt(t.secs, 2);
    var P := FormatInt(t.frac, secDigits);
    assert FractionText(t.frac, secDigits) == "." + P;
    assert FormatFields(t, "", "", secDigits, "") == A1 + "" + A2 + "" + A3 + ("." + P) + "";
    assert A1 + "" + A2 + "" + A3 + ("." + P) + "" == (A1 + A2 + A3) + ['.'] + P;
    assert AllDigits(A1 + A2 + A3);
    LeadFieldRejects(A1 + A2 + A3, '.', P);
  }

  /** Without separators, a fraction makes both parsers fail: the '.' is
      met while the leading field is still being read. */
  lemma NoSeparatorFractionRejected(ticks: nat, negative: bool, secDigits: int)
    requires secDigits > 0
    ensures HmsStringToDeg(DegToHmsString(ticks, secDigits, false, true)) == None
    ensures DmsStringToDeg(DegToDmsString(ticks, negative, secDigits, false, true)) == None
  {
    var t := SplitTicks(ticks, Multiplier(secDigits));
    HmsText(ticks, secDigits, false, true);
    DmsText(ticks, negative, secDigits, false, true);
    NoSeparatorBodyRejected(t, secDigits);
    DmsOfSigned(negative, FormatFields(t, "", "", secDigits, ""));
  }

  /** The fraction text: nothing when secDigits <= 0, otherwise a '.'
      and exactly secDigits digits spelling `frac`. */
  lemma FractionTextDigits(frac: nat, secDigits: int)
    requires frac < Multiplier(secDigits)
    ensures secDigits <= 0 ==> FractionText(frac, secDigits) == ""
    ensures secDigits > 0 ==>
              var ft := FractionText(frac, secDigits);
              && |ft| == secDigits + 1 && ft[0] == '.'
              && AllDigits(ft[1..]) && Accumulate(0, ft[1..]) == frac
  {
    if secDigits > 0 {
      NatDigitsLength(frac, secDigits);
      assert FractionText(frac, secDigits)[1..] == FormatInt(frac, secDigits);
    }
  }

  /** The three fields of a formatted text, up to the fraction: no '.',
      and a digit at the end. */
  lemma FieldsHead(t: Ticks, lsep: string, msep: string, secDigits: int, suffix: string)
    requires '.' !in lsep && '.' !in msep
    ensures var head := FormatInt(t.lead, 2) + lsep + FormatInt(t.mins, 2) + msep + FormatInt(t.secs, 2);
            && '.' !in head && |head| > 0 && IsDigit(head[|head| - 1])
            && FormatFields(t, lsep, msep, secDigits, suffix) == head + FractionText(t.frac, secDigits) + suffix
  {
    var C := FormatInt(t.secs, 2);
    FormatIntChars(t.lead, 2);
    FormatIntChars(t.mins, 2);
    FormatIntChars(t.secs, 2);
    var head := FormatInt(t.lead, 2) + lsep + FormatInt(t.mins, 2) + msep + C;
    assert head[|head| - 1] == C[|C| - 1];
  }

  /** The shared text ends in 's' exactly when the suffix is 's'; otherwise
      it ends in a digit of the seconds or of the fraction. */
  lemma FieldsEnd(t: Ticks, lsep: string, msep: string, secDigits: int, suffix: string)
    requires '.' !in lsep && '.' !in msep
    requires suffix == "" || suffix == "s"
    requires t.frac < Multiplier(secDigits)
    ensures var r := FormatFields(t, lsep, msep, secDigits, suffix);
            |r| > 0 && (r[|r| - 1] == 's' <==> suffix == "s")
  {
    FieldsHead(t, lsep, msep, secDigits, suffix);
    FractionTextDigits(t.frac, secDigits);
    var head := FormatInt(t.lead, 2) + lsep + FormatInt(t.mins, 2) + msep + FormatInt(t.secs, 2);
    var ft := FractionText(t.frac, secDigits);
    var r := head + ft + suffix;
    if suffix == "" {
      if secDigits > 0 {
        assert r[|r| - 1] == ft[|ft| - 1] == ft[1..][|ft| - 2];
      } else {
        assert r == head;
      }
    }
  }

  /** Layout of degToHMSString: a head without any '.', then the fraction
      text of the tick count modulo 10^secDigits (a '.' and exactly
      secDigits digits, or nothing, by FractionTextDigits), then the
      optional 's'. */
  lemma HmsLayout(ticks: int, secDigits: int, hmssep: bool, nosep: bool)
    ensures exists head :: '.' !in head
              && DegToHmsString(ticks, secDigits, hmssep, nosep)
                   == head + FractionText(ticks % Multiplier(secDigits), secDigits)
                      + (if hmssep && !nosep then "s" else "")
  {
    var mult := Multiplier(secDigits);
    var t := SplitTicks(ticks, mult);
    var hsep := if nosep then "" else if hmssep then "h" else ":";
    var msep := if nosep then "" else if hmssep then "m" else ":";
    var suffix := if !nosep && hmssep then "s" else "";
    HmsText(ticks, secDigits, hmssep, nosep);
    FieldsHead(t, hsep, msep, secDigits, suffix);
    FloorDivMod(ticks, mult);
    var head := FormatInt(t.lead, 2) + hsep + FormatInt(t.mins, 2) + msep + FormatInt(t.secs, 2);
    WitnessHead(DegToHmsString(ticks, secDigits, hmssep, nosep), head,
                FractionText(ticks % mult, secDigits), if hmssep && !nosep then "s" else "");
  }

  lemma WitnessHead(r: string, head: string, ft: string, suffix: string)
    requires '.' !in head && r == head + ft + suffix
    ensures exists h :: '.' !in h && r == h + ft + suffix
  {
  }

  /** FormatInt writes digits, preceded by '-' for a negative number, so no '.'. */
  lemma FormatIntChars(n: int, width: int)
    ensures '.' !in FormatInt(n, width)
  {
    if n < 0 {
      var z := ZeroPad(NatDigits(-n), width - 1);
      assert FormatInt(n, width) == "-" + z;
      assert forall c :: c in z ==> IsDigit(c);
    }
  }

  // Text after the first 's' that the scanner reaches is never read.

  function Lift(o: Option<(nat, string)>, t: string): Option<(nat, string)>
  {
    match o
    case None => None
    case Some((v, r)) => Some((v, r + t))
  }

  /** `r` is some text without 's' followed by one 's'. */
  predicate EndsAtFirstS(r: string)
  {
    |r| >= 1 && r[|r| - 1] == 's' && 's' !in r[..|r| - 1]
  }

  lemma {:induction false} ReadFieldIgnoresAfterS(x: string, t: string, acc: nat, seps: set<char>)
    requires 's' !in x && 's' !in seps
    ensures ReadField(x + "s" + t, acc, seps) == Lift(ReadField(x + "s", acc, seps), t)
    ensures ReadField(x + "s", acc, seps).Some? ==> EndsAtFirstS(ReadField(x + "s", acc, seps).value.1)
    decreases |x|
  {
    if x == [] {
      assert (x + "s" + t)[0] == 's' && (x + "s")[0] == 's';
    } else {
      assert (x + "s" + t)[0] == x[0] && (x + "s")[0] == x[0];
      assert (x + "s" + t)[1..] == x[1..] + "s" + t;
      assert (x + "s")[1..] == x[1..] + "s";
      if IsDigit(x[0]) {
        ReadFieldIgnoresAfterS(x[1..], t, acc * 10 + DigitValue(x[0]), seps);
      } else if x[0] in seps {
        assert (x[1..] + "s")[..|x[1..] + "s"| - 1] == x[1..];
      }
    }
  }

  lemma {:induction false} ReadSecondsIgnoresAfterS(x: string, t: string, acc: nat)
    requires 's' !in x
    ensures ReadSeconds(x + "s" + t, acc) == Lift(ReadSeconds(x + "s", acc), t)
    ensures ReadSeconds(x + "s", acc).Some? ==> EndsAtFirstS(ReadSeconds(x + "s", acc).value.1)
    decreases |x|
  {
    if x == [] {
      assert (x + "s" + t)[0] == 's' && (x + "s")[0] == 's';
      assert x + "s" + t == "s" + t && x + "s" == "s";
    } else {
      assert (x + "s" + t)[0] == x[0] && (x + "s")[0] == x[0];
      assert (x + "s" + t)[1..] == x[1..] + "s" + t;
      assert (x + "s")[1..] == x[1..] + "s";
      if IsDigit(x[0]) {
        ReadSecondsIgnoresAfterS(x[1..], t, acc * 10 + DigitValue(x[0]));
      } else if x[0] == '.' {
        assert (x[1..] + "s")[..|x[1..] + "s"| - 1] == x[1..];
      }
    }
  }

  lemma {:induction false} ReadFractionIgnoresAfterS(x: string, t: string, acc: nat, scale: nat)
    requires 's' !in x
    ensures ReadFraction(x + "s" + t, acc, scale) == ReadFraction(x + "s", acc, scale)
    decreases |x|
  {
    if x == [] {
      assert (x + "s" + t)[0] == 's' && (x + "s")[0] == 's';
    } else {
      assert (x + "s" + t)[0] == x[0] && (x + "s")[0] == x[0];
      assert (x + "s" + t)[1..] == x[1..] + "s" + t;
      assert (x + "s")[1..] == x[1..] + "s";
      if IsDigit(x[0]) {
        ReadFractionIgnoresAfterS(x[1..], t, acc * 10 + DigitValue(x[0]), scale * 10);
      }
    }
  }

  /** Splits a text that ends at its first 's' into the part before it. */
  lemma SplitAtS(r: string) returns (y: string)
    requires EndsAtFirstS(r)
    ensures r == y + "s" && 's' !in y
  {
    y := r[..|r| - 1];
    assert r == y + "s";
  }

  /** Once the scanner reaches an 's' (after the minutes), nothing after
      it is looked at: the fields are those of the text up to that 's'. */
  lemma {:induction false} ReadFieldsIgnoresAfterS(x: string, t: string)
    requires 's' !in x
    ensures ReadFields(x + "s" + t) == ReadFields(x + "s")
  {
    ReadFieldIgnoresAfterS(x, t, 0, LeadSeparators);
    var o1 := ReadField(x + "s", 0, LeadSeparators);
    if o1.Some? {
      var y1 := SplitAtS(o1.value.1);
      assert y1 + "s" + t == o1.value.1 + t;
      ReadFieldIgnoresAfterS(y1, t, 0, MinuteSeparators);
      var o2 := ReadField(y1 + "s", 0, MinuteSeparators);
      if o2.Some? {
        var y2 := SplitAtS(o2.value.1);
        assert y2 + "s" + t == o2.value.1 + t;
        ReadSecondsIgnoresAfterS(y2, t, 0);
        var o3 := ReadSeconds(y2 + "s", 0);
        if o3.Some? {
          var y3 := SplitAtS(o3.value.1);
          assert y3 + "s" + t == o3.value.1 + t;
          ReadFractionIgnoresAfterS(y3, t, 0, 1);
        }
      }
    }
  }

  /** Anything after the terminating 's' is ignored by both parsers. */
  lemma IgnoresAfterS(x: string, t: string)
    requires 's' !in x
    ensures HmsStringToDeg(x + "s" + t) == HmsStringToDeg(x + "s")
    ensures DmsStringToDeg(x + "s" + t) == DmsStringToDeg(x + "s")
  {
    ReadFieldsIgnoresAfterS(x, t);
    if x != [] && (x[0] == '-' || x[0] == '+') {
      assert (x + "s" + t)[0] == x[0] && (x + "s")[0] == x[0];
      assert (x + "s" + t)[1..] == x[1..] + "s" + t;
      assert (x + "s")[1..] == x[1..] + "s";
      ReadFieldsIgnoresAfterS(x[1..], t);
    } else if x != [] {
      assert (x + "s" + t)[0] == x[0] && (x + "s")[0] == x[0];
    } else {
      assert (x + "s" + t)[0] == 's' && (x + "s")[0] == 's';
    }
  }

  /** Any character other than a digit or one of the leading field's
      separators, met while reading that field, makes both parsers fail. */
  lemma RejectsStrayCharacter(ds: string, c: char, rest: string)
    requires AllDigits(ds) && !IsDigit(c) && c !in LeadSeparators
    requires c != '-' && c != '+'
    ensures HmsStringToDeg(ds + [c] + rest) == None
    ensures DmsStringToDeg(ds + [c] + rest) == None
  {
    ReadFieldDigits(ds, [c] + rest, 0, LeadSeparators);
    assert ds + [c] + rest == ds + ([c] + rest);
    assert ([c] + rest)[0] == c;
    if ds != [] {
      assert (ds + [c] + rest)[0] == ds[0];
    } else {
      assert (ds + [c] + rest)[0] == c;
    }
  }

  // A character no phase accepts, met before any 's', makes both parsers fail.

  /** A character that is neither a digit nor one of ':', 'h', 'm', ' ',
      '.' and 's', the only other characters some phase accepts. */
  predicate Stray(c: char)
  {
    !IsDigit(c) && c !in {':', 'h', 'm', ' ', '.', 's'}
  }

  predicate HasStray(x: string)
  {
    exists i :: 0 <= i < |x| && Stray(x[i])
  }

  lemma HasStrayTail(x: string)
    requires HasStray(x) && !Stray(x[0])
    ensures HasStray(x[1..])
  {
    var i :| 0 <= i < |x| && Stray(x[i]);
    assert x[1..][i - 1] == x[i];
  }

  /** A field either fails or leaves text that still holds the stray character. */
  lemma {:induction false} ReadFieldStray(x: string, t: string, acc: nat, seps: set<char>) returns (y: string)
    requires 's' !in x && HasStray(x)
    requires forall c :: c in seps ==> !Stray(c)
    ensures ReadField(x + t, acc, seps).Some? ==>
              ReadField(x + t, acc, seps).value.1 == y + t && 's' !in y && HasStray(y)
    decreases |x|
  {
    assert (x + t)[0] == x[0] && (x + t)[1..] == x[1..] + t;
    y := x[1..];
    if !Stray(x[0]) {
      HasStrayTail(x);
      if IsDigit(x[0]) {
        y := ReadFieldStray(x[1..], t, acc * 10 + DigitValue(x[0]), seps);
      }
    }
  }

  lemma {:induction false} ReadSecondsStray(x: string, t: string, acc: nat) returns (y: string)
    requires 's' !in x && HasStray(x)
    ensures ReadSeconds(x + t, acc).Some? ==>
              ReadSeconds(x + t, acc).value.1 == y + t && 's' !in y && HasStray(y)
    decreases |x|
  {
    assert (x + t)[0] == x[0] && (x + t)[1..] == x[1..] + t;
    y := x[1..];
    if !Stray(x[0]) {
      HasStrayTail(x);
      if IsDigit(x[0]) {
        y := ReadSecondsStray(x[1..], t, acc * 10 + DigitValue(x[0]));
      }
    }
  }

  lemma {:induction false} ReadFractionStray(x: string, t: string, acc: nat, scale: nat)
    requires 's' !in x && HasStray(x)
    ensures ReadFraction(x + t, acc, scale) == None
    decreases |x|
  {
    assert (x + t)[0] == x[0] && (x + t)[1..] == x[1..] + t;
    if !Stray(x[0]) {
      HasStrayTail(x);
      if IsDigit(x[0]) {
        ReadFractionStray(x[1..], t, acc * 10 + DigitValue(x[0]), scale * 10);
      }
    }
  }

  lemma ReadFieldsStray(x: string, t: string)
    requires 's' !in x && HasStray(x)
    ensures ReadFields(x + t) == None
  {
    var y1 := ReadFieldStray(x, t, 0, LeadSeparators);
    var o1 := ReadField(x + t, 0, LeadSeparators);
    if o1.Some? {
      var y2 := ReadFieldStray(y1, t, 0, MinuteSeparators);
      var o2 := ReadField(o1.value.1, 0, MinuteSeparators);
      if o2.Some? {
        var y3 := ReadSecondsStray(y2, t, 0);
        var o3 := ReadSeconds(o2.value.1, 0);
        if o3.Some? {
          ReadFractionStray(y3, t, 0, 1);
        }
      }
    }
  }

  /** Text with no 's' that holds a stray character is refused whatever
      follows it; for declinations, the stray character may come anywhere
      after the optional sign. */
  lemma RejectsStrayAnywhere(x: string, t: string)
    requires 's' !in x && HasStray(x)
    ensures HmsStringToDeg(x + t) == None
    ensures x != [] && x[0] != '-' && x[0] != '+' ==> DmsStringToDeg(x + t) == None
    ensures DmsStringToDeg("-" + x + t) == None && DmsStringToDeg("+" + x + t) == None
  {
    ReadFieldsStray(x, t);
    assert ("-" + x + t)[1..] == x + t && ("+" + x + t)[1..] == x + t;
  }

  // Separators met in the wrong phase make both parsers fail.

  /** Text the four phases refuse is refused as a right ascension and,
      behind either sign, as a declination. */
  lemma RefusedBothWays(x: string)
    requires ReadFields(x) == None
    ensures HmsStringToDeg(x) == None
    ensures DmsStringToDeg("-" + x) == None && DmsStringToDeg("+" + x) == None
  {
    assert ("-" + x)[1..] == x && ("+" + x)[1..] == x;
  }

  /** In the minutes field, anything but a digit, ':', 'm' or a blank (an
      'h', a '.', an 's') is refused. */
  lemma MinutesSeparatorRejected(A: string, lsep: string, B: string, c: char, rest: string)
    requires AllDigits(A) && AllDigits(B)
    requires lsep == ":" || lsep == "h"
    requires !IsDigit(c) && c !in MinuteSeparators
    ensures ReadFields(A + lsep + B + [c] + rest) == None
    ensures HmsStringToDeg(A + lsep + B + [c] + rest) == None
    ensures DmsStringToDeg("-" + (A + lsep + B + [c] + rest)) == None
  {
    var R1 := lsep + (B + [c] + rest);
    assert A + lsep + B + [c] + rest == A + R1;
    ReadFieldDigits(A, R1, 0, LeadSeparators);
    assert R1[0] in LeadSeparators && R1[1..] == B + ([c] + rest);
    ReadFieldDigits(B, [c] + rest, 0, MinuteSeparators);
    assert ([c] + rest)[0] == c;
    RefusedBothWays(A + lsep + B + [c] + rest);
  }

  /** In the seconds field, a separator of the first two fields (a third
      ':', an 'h', an 'm' or a blank) is refused. */
  lemma SecondsSeparatorRejected(A: string, lsep: string, B: string, msep: string, C: string, c: char, rest: string)
    requires AllDigits(A) && AllDigits(B) && AllDigits(C)
    requires lsep == ":" || lsep == "h"
    requires msep == ":" || msep == "m"
    requires c in LeadSeparators + MinuteSeparators
    ensures ReadFields(A + lsep + B + msep + C + [c] + rest) == None
    ensures HmsStringToDeg(A + lsep + B + msep + C + [c] + rest) == None
    ensures DmsStringToDeg("-" + (A + lsep + B + msep + C + [c] + rest)) == None
  {
    assert A + lsep + B + msep + C + [c] + rest == A + lsep + B + msep + C + ([c] + rest);
    ReadHead(A, lsep, B, msep, C, [c] + rest);
    assert ([c] + rest)[0] == c;
    RefusedBothWays(A + lsep + B + msep + C + [c] + rest);
  }

  /** After the seconds, a '.' and fraction digits followed by anything
      but a digit or an 's' fail phase four. */
  lemma FractionTailRefused(secs: nat, D: string, c: char, rest: string)
    requires AllDigits(D) && !IsDigit(c) && c != 's'
    ensures ReadSeconds("." + D + [c] + rest, secs) == Some((secs, D + [c] + rest))
    ensures ReadFraction(D + [c] + rest, 0, 1) == None
  {
    assert ("." + D + [c] + rest)[1..] == D + [c] + rest;
    assert D + [c] + rest == D + ([c] + rest);
    ReadFractionDigits(D, [c] + rest, 0, 1);
    assert ([c] + rest)[0] == c;
  }

  /** In the fraction, a second '.' (or any separator but the final 's')
      is refused. */
  lemma FractionSeparatorRejected(A: string, lsep: string, B: string, msep: string, C: string, D: string, c: char, rest: string)
    requires AllDigits(A) && AllDigits(B) && AllDigits(C) && AllDigits(D)
    requires lsep == ":" || lsep == "h"
    requires msep == ":" || msep == "m"
    requires c in LeadSeparators + MinuteSeparators + {'.'}
    ensures ReadFields(A + lsep + B + msep + C + "." + D + [c] + rest) == None
    ensures HmsStringToDeg(A + lsep + B + msep + C + "." + D + [c] + rest) == None
    ensures DmsStringToDeg("-" + (A + lsep + B + msep + C + "." + D + [c] + rest)) == None
  {
    var x := A + lsep + B + msep + C + "." + D + [c] + rest;
    var tail := "." + D + [c] + rest;
    assert x == A + lsep + B + msep + C + tail;
    ReadHead(A, lsep, B, msep, C, tail);
    FractionTailRefused(Accumulate(0, C), D, c, rest);
    RefusedBothWays(x);
  }
}
