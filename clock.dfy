/** The remaining-time readout: `HH:MM:SS`, each field the decimal text of a
    floored quotient of the remaining seconds, padded to two digits. */
module Clock {

  datatype Option<T> = None | Some(value: T)

  /** Hours, minutes and seconds as shown. */
  datatype Hms = Hms(hours: nat, minutes: nat, seconds: nat)

  /** Seconds left: the requested duration minus the elapsed time, clamped at
      zero. */
  function Remaining(duration: real, elapsed: real): (r: real)
    ensures r >= 0.0 && r >= duration - elapsed
    ensures r == duration - elapsed || r == 0.0
  {
    if duration - elapsed > 0.0 then duration - elapsed else 0.0
  }

  /** The remainder operator of the script on a non-negative left operand:
      `x` less the whole multiples of `m` it contains. */
  function Rem(x: real, m: real): (r: real)
    requires x >= 0.0 && m > 0.0
    ensures 0.0 <= r < m
  {
    var q := (x / m).Floor as real;
    Between(x, q, x / m, m);
    assert m * q == q * m;
    x - m * q
  }

  /** What the remainder takes away is a whole multiple of `m`. Together with
      the bounds of `Rem`, this pins `Rem` down as JavaScript's `%` on a
      non-negative left operand. */
  lemma RemLeavesWholeMultiple(x: real, m: real)
    requires x >= 0.0 && m > 0.0
    ensures ((x - Rem(x, m)) / m).Floor as real == (x - Rem(x, m)) / m
  {
    var q := (x / m).Floor as real;
    assert x - Rem(x, m) == m * q;
    assert (m * q) / m == q;
  }

  /** The three fields as the script computes them from a non-negative real:
      the floor of `r / 3600`, of `(r % 3600) / 60` and of `r % 60`. */
  function Fields(r: real): (f: Hms)
    requires r >= 0.0
    ensures f.hours as real <= r / 3600.0 < f.hours as real + 1.0
    ensures f.minutes < 60 && f.seconds < 60
  {
    var h := (r / 3600.0).Floor;
    var m := (Rem(r, 3600.0) / 60.0).Floor;
    var s := Rem(r, 60.0).Floor;
    assert h >= 0 && m >= 0 && s >= 0;
    Hms(h, m, s)
  }

  /** Flooring a quotient by a whole divisor is whole-number division of the
      floor. */
  lemma FloorDiv(x: real, k: nat)
    requires x >= 0.0 && k > 0
    ensures (x / k as real).Floor == x.Floor / k
  {
    var n := x.Floor;
    var q := n / k;
    var kr := k as real;
    var y := x / kr;
    assert y * kr == x;
    assert n == q * k + n % k && 0 <= n % k < k;
    assert (q * k) as real == q as real * kr;
    assert ((q + 1) * k) as real == (q as real + 1.0) * kr;
    assert q as real * kr <= x;
    assert x < ((q + 1) * k) as real;
    UnscaleLe(q as real, y, kr);
    UnscaleLt(y, q as real + 1.0, kr);
  }

  /** A value `x == y * m` with `q <= y < q + 1` and `m` positive lies between
      `q * m` and `q * m + m`. */
  lemma Between(x: real, q: real, y: real, m: real)
    requires q <= y < q + 1.0 && m > 0.0 && x == y * m
    ensures q * m <= x < q * m + m
  {
    AtLeastScaled(x, q, y, m);
    BelowScaled(x, q, y, m);
  }

  lemma AtLeastScaled(x: real, q: real, y: real, m: real)
    requires q <= y && m > 0.0 && x == y * m
    ensures q * m <= x
  {
  }

  lemma BelowScaled(x: real, q: real, y: real, m: real)
    requires y < q + 1.0 && m > 0.0 && x == y * m
    ensures x < q * m + m
  {
    ScaleLt(y, q + 1.0, m);
    Distribute(q, m);
    LinearLt(x, y * m, (q + 1.0) * m, q * m, m);
  }

  lemma Distribute(q: real, m: real)
    ensures (q + 1.0) * m == q * m + m
  {
  }

  lemma LinearLt(x: real, a: real, b: real, c: real, m: real)
    requires x == a && a < b && b == c + m
    ensures x < c + m
  {
  }

  lemma ScaleLt(a: real, b: real, m: real)
    requires a < b && m > 0.0
    ensures a * m < b * m
  {
  }

  lemma UnscaleLe(a: real, b: real, m: real)
    requires a * m <= b * m && m > 0.0
    ensures a <= b
  {
  }

  lemma UnscaleLt(a: real, b: real, m: real)
    requires a * m < b * m && m > 0.0
    ensures a < b
  {
  }

  /** The floor of the script's remainder is the whole-number remainder of the
      floor. */
  lemma FloorRem(x: real, k: nat)
    requires x >= 0.0 && k > 0
    ensures Rem(x, k as real).Floor == x.Floor % k
  {
    FloorDiv(x, k);
    var n := x.Floor;
    var q := n / k;
    assert Rem(x, k as real) == x - (q * k) as real;
    assert n % k == n - q * k;
  }

  /** Splitting whole seconds into hours, minutes and seconds loses nothing. */
  lemma Recombine(n: nat)
    ensures (n % 3600) / 60 < 60 && n % 60 < 60
    ensures (n / 3600) * 3600 + ((n % 3600) / 60) * 60 + n % 60 == n
  {
    var a, b := n / 3600, n % 3600;
    var c, d := b / 60, b % 60;
    assert n == 3600 * a + b;
    assert b == 60 * c + d;
    assert n == 60 * (60 * a + c) + d;
    DivModUnique(n, 60, 60 * a + c, d);
  }

  lemma DivModUnique(n: nat, k: nat, q: nat, r: nat)
    requires k > 0 && n == q * k + r && r < k
    ensures n / k == q && n % k == r
  {
    var q', r' := n / k, n % k;
    assert n == q' * k + r';
    if q' < q {
      assert (q - q') * k == q * k - q' * k;
      AtLeastOnce(q - q', k);
    } else if q < q' {
      assert (q' - q) * k == q' * k - q * k;
      AtLeastOnce(q' - q, k);
    }
  }

  lemma AtLeastOnce(d: int, k: nat)
    requires d >= 1
    ensures d * k >= k
  {
  }

  /** For a non-negative remaining time each floor the script takes equals a
      whole-number operation on the floored seconds. */
  lemma FieldsOfWholeSeconds(r: real)
    requires r >= 0.0
    ensures var n := r.Floor;
            Fields(r) == Hms(n / 3600, (n % 3600) / 60, n % 60)
  {
    var n := r.Floor;
    FloorDiv(r, 3600);
    FloorRem(r, 3600);
    FloorRem(r, 60);
    var x := Rem(r, 3600.0);
    FloorDiv(x, 60);
  }

  /** The fields are a proper clock reading of the floored remaining time:
      minutes and seconds below 60, and together they add up to it. */
  lemma FieldsAreClockReading(r: real)
    requires r >= 0.0
    ensures Fields(r).minutes < 60 && Fields(r).seconds < 60
    ensures Fields(r).hours * 3600 + Fields(r).minutes * 60 + Fields(r).seconds == r.Floor
  {
    FieldsOfWholeSeconds(r);
    Recombine(r.Floor);
  }

  predicate IsDigit(c: char) {
    '0' <= c <= '9'
  }

  predicate AllDigits(s: string) {
    forall i :: 0 <= i < |s| ==> IsDigit(s[i])
  }

  function DigitChar(d: nat): (c: char)
    requires d < 10
    ensures IsDigit(c) && c as int - '0' as int == d
  {
    ('0' as int + d) as char
  }

  /** Decimal text of a non-negative whole number, without leading zeros. */
  function Decimal(n: nat): (s: string)
    ensures 1 <= |s| && AllDigits(s)
    ensures n < 10 <==> |s| == 1
    ensures 10 <= n < 100 ==> |s| == 2
    ensures n > 0 ==> s[0] != '0'
    decreases n
  {
    if n < 10 then [DigitChar(n)] else Decimal(n / 10) + [DigitChar(n % 10)]
  }

  /** Value of a string of decimal digits. */
  function Value(s: string): nat
    requires AllDigits(s)
  {
    if s == [] then 0 else Value(s[..|s| - 1]) * 10 + (s[|s| - 1] as int - '0' as int)
  }

  /** Reading back the decimal text gives the number. */
  lemma {:induction false} DecimalRoundTrip(n: nat)
    ensures Value(Decimal(n)) == n
    decreases n
  {
    var s := Decimal(n);
    if n >= 10 {
      assert s[..|s| - 1] == Decimal(n / 10);
      DecimalRoundTrip(n / 10);
    }
  }

  /** `s` padded on the left with `fill` up to `width` characters; a string
      already that long is left as it is. */
  function PadStart(s: string, width: nat, fill: char): (r: string)
    ensures |r| == if |s| < width then width else |s|
    ensures r[|r| - |s|..] == s
    ensures forall i :: 0 <= i < |r| - |s| ==> r[i] == fill
  {
    if |s| < width then seq(width - |s|, _ => fill) + s else s
  }

  /** Leading zeros do not change the value of a digit string. */
  lemma {:induction false} LeadingZeros(z: string, s: string)
    requires forall i :: 0 <= i < |z| ==> z[i] == '0'
    requires AllDigits(s)
    ensures AllDigits(z + s) && Value(z + s) == Value(s)
    decreases |s|
  {
    if s == [] {
      assert z + s == z;
      ZerosAreZero(z);
    } else {
      var t := z + s;
      assert t[..|t| - 1] == z + s[..|s| - 1];
      LeadingZeros(z, s[..|s| - 1]);
    }
  }

  lemma {:induction false} ZerosAreZero(z: string)
    requires forall i :: 0 <= i < |z| ==> z[i] == '0'
    ensures AllDigits(z) && Value(z) == 0
    decreases |z|
  {
    if z != [] {
      ZerosAreZero(z[..|z| - 1]);
    }
  }

  /** One field of the readout: `n.toString().padStart(2, '0')`. */
  function Field(n: nat): (s: string)
    ensures 2 <= |s| && AllDigits(s)
    ensures n < 100 ==> |s| == 2
  {
    PadStart(Decimal(n), 2, '0')
  }

  /** A field reads back as its number. */
  lemma FieldRoundTrip(n: nat)
    ensures Value(Field(n)) == n
  {
    var d := Decimal(n);
    var s := PadStart(d, 2, '0');
    var z := s[..|s| - |d|];
    assert s == z + s[|s| - |d|..];
    assert forall i :: 0 <= i < |z| ==> z[i] == '0';
    LeadingZeros(z, d);
    DecimalRoundTrip(n);
  }

  /** Three fields joined by colons. */
  function Compose(f: Hms): (text: string)
    ensures |text| >= 8
  {
    Field(f.hours) + ":" + Field(f.minutes) + ":" + Field(f.seconds)
  }

  /** The readout shown for `r` remaining seconds. */
  function Readout(r: real): (text: string)
    requires r >= 0.0
    ensures ParseReadout(text) == Some(Fields(r))
  {
    ComposeRoundTrip(Fields(r));
    Compose(Fields(r))
  }

  /** First position of `c` in `t`. */
  function IndexOf(t: string, c: char): (i: nat)
    requires c in t
    ensures i < |t| && t[i] == c && c !in t[..i]
  {
    if t[0] == c then 0 else 1 + IndexOf(t[1..], c)
  }

  /** The first separator is the one right after a separator-free prefix. */
  lemma {:induction false} IndexOfAfter(a: string, sep: char, rest: string)
    requires sep !in a
    ensures IndexOf(a + [sep] + rest, sep) == |a|
    decreases |a|
  {
    var t := a + [sep] + rest;
    if a != [] {
      assert t[0] == a[0];
      assert t[1..] == a[1..] + [sep] + rest;
      IndexOfAfter(a[1..], sep, rest);
    }
  }

  /** `t` cut at every `sep`. */
  function Split(t: string, sep: char): (parts: seq<string>)
    ensures |parts| >= 1
    ensures forall i :: 0 <= i < |parts| ==> sep !in parts[i]
    decreases |t|
  {
    if sep !in t then [t]
    else
      var i := IndexOf(t, sep);
      [t[..i]] + Split(t[i + 1..], sep)
  }

  /** `parts` joined with `sep` between neighbours. */
  function Join(parts: seq<string>, sep: char): string
    requires |parts| >= 1
  {
    if |parts| == 1 then parts[0] else parts[0] + [sep] + Join(parts[1..], sep)
  }

  /** Splitting undoes joining pieces that do not contain the separator. */
  lemma {:induction false} SplitJoin(parts: seq<string>, sep: char)
    requires |parts| >= 1
    requires forall i :: 0 <= i < |parts| ==> sep !in parts[i]
    ensures Split(Join(parts, sep), sep) == parts
    decreases |parts|
  {
    if |parts| > 1 {
      var a, rest := parts[0], Join(parts[1..], sep);
      var t := a + [sep] + rest;
      assert Join(parts, sep) == t;
      assert t[|a|] == sep;
      IndexOfAfter(a, sep, rest);
      var i := IndexOf(t, sep);
      assert t[..i] == a;
      assert t[i + 1..] == rest;
      assert Split(t, sep) == [a] + Split(rest, sep);
      SplitJoin(parts[1..], sep);
      assert parts == [a] + parts[1..];
    }
  }

  /** Reading an `HH:MM:SS` text: three non-empty digit fields. */
  function ParseReadout(text: string): (p: Option<Hms>)
    ensures p.Some? ==> Join(Split(text, ':'), ':') == text
  {
    var parts := Split(text, ':');
    if |parts| == 3 && |parts[0]| >= 1 && |parts[1]| >= 1 && |parts[2]| >= 1
       && AllDigits(parts[0]) && AllDigits(parts[1]) && AllDigits(parts[2])
    then
      JoinSplit(text, ':');
      Some(Hms(Value(parts[0]), Value(parts[1]), Value(parts[2])))
    else None
  }

  /** Joining the pieces of a split gives back the text. */
  lemma {:induction false} JoinSplit(t: string, sep: char)
    ensures Join(Split(t, sep), sep) == t
    decreases |t|
  {
    if sep in t {
      var i := IndexOf(t, sep);
      var parts := Split(t, sep);
      assert parts == [t[..i]] + Split(t[i + 1..], sep);
      assert parts[1..] == Split(t[i + 1..], sep);
      assert Join(parts, sep) == t[..i] + [sep] + Join(parts[1..], sep);
      JoinSplit(t[i + 1..], sep);
      assert t == t[..i] + [sep] + t[i + 1..];
    }
  }

  /** A field never contains the separator. */
  lemma DigitsHaveNoColon(s: string)
    requires AllDigits(s)
    ensures ':' !in s
  {
  }

  /** Three digit strings joined by colons split back into themselves. */
  lemma ThreeFieldsSplit(a: string, b: string, c: string)
    requires AllDigits(a) && AllDigits(b) && AllDigits(c)
    ensures Split(a + ":" + b + ":" + c, ':') == [a, b, c]
  {
    var parts := [a, b, c];
    DigitsHaveNoColon(a);
    DigitsHaveNoColon(b);
    DigitsHaveNoColon(c);
    assert Join(parts[2..], ':') == c;
    assert Join(parts[1..], ':') == b + ":" + c;
    assert Join(parts, ':') == a + ":" + b + ":" + c;
    SplitJoin(parts, ':');
  }

  /** Any three fields, composed into a readout, parse back as themselves;
      the minutes and seconds of a proper reading show exactly two digits. */
  lemma ComposeRoundTrip(f: Hms)
    ensures ParseReadout(Compose(f)) == Some(f)
    ensures var parts := Split(Compose(f), ':');
            |parts| == 3 && |parts[0]| >= 2
            && (f.minutes < 60 ==> |parts[1]| == 2) && (f.seconds < 60 ==> |parts[2]| == 2)
  {
    var h, m, s := Field(f.hours), Field(f.minutes), Field(f.seconds);
    ThreeFieldsSplit(h, m, s);
    FieldRoundTrip(f.hours);
    FieldRoundTrip(f.minutes);
    FieldRoundTrip(f.seconds);
  }

  /** The readout parses back into its fields, whose total is the floored
      remaining time, with minutes and seconds below 60; hours show at least
      two digits, minutes and seconds exactly two. */
  lemma ReadoutRoundTrip(r: real)
    requires r >= 0.0
    ensures var f := Fields(r);
            ParseReadout(Readout(r)) == Some(f)
            && f.hours * 3600 + f.minutes * 60 + f.seconds == r.Floor
            && f.minutes < 60 && f.seconds < 60
    ensures var parts := Split(Readout(r), ':');
            |parts| == 3 && |parts[0]| >= 2 && |parts[1]| == 2 && |parts[2]| == 2
  {
    FieldsAreClockReading(r);
    ComposeRoundTrip(Fields(r));
  }

  /** The readout is `00:00:00` exactly when less than one second remains. */
  lemma ReadoutZeroIff(r: real)
    requires r >= 0.0
    ensures Readout(r) == "00:00:00" <==> r < 1.0
  {
    FieldsAreClockReading(r);
    var zero := Hms(0, 0, 0);
    assert Decimal(0) == "0";
    assert Field(0) == "00";
    assert Compose(zero) == "00:00:00";
    if r < 1.0 {
      assert r.Floor == 0;
    } else if Readout(r) == "00:00:00" {
      ComposeRoundTrip(zero);
    }
  }

  /** As time passes the remaining seconds never grow, whole or fractional. */
  lemma RemainingNonIncreasing(duration: real, e1: real, e2: real)
    requires e1 <= e2
    ensures Remaining(duration, e2) <= Remaining(duration, e1)
    ensures Remaining(duration, e2).Floor <= Remaining(duration, e1).Floor
  {
  }
}
