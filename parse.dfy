/** Reading a signed decimal numeral, such as "-123.456" or ".1234", as a
    number of amounts: NewFromString and its panicking twin MustFromString. */
module Parse {
  import opened Wrappers
  import opened Rationals
  import opened Bps

  /** The one kind of failure the parser reports. */
  datatype ParseError = InvalidFormat

  predicate IsDigit(c: char)
  {
    '0' <= c <= '9'
  }

  predicate AllDigits(s: string)
  {
    forall i :: 0 <= i < |s| ==> IsDigit(s[i])
  }

  function DigitValue(c: char): (d: nat)
    requires IsDigit(c)
    ensures d < 10
  {
    c as int - '0' as int
  }

  /** The base-10 value of a digit string; the empty string reads as 0. */
  function DigitsValue(s: string): nat
    requires AllDigits(s)
  {
    if s == [] then 0 else DigitsValue(s[..|s| - 1]) * 10 + DigitValue(s[|s| - 1])
  }

  function Pow10(k: nat): Pos
  {
    if k == 0 then 1 else 10 * Pow10(k - 1)
  }

  function Count(s: string, c: char): nat
  {
    if s == [] then 0 else (if s[0] == c then 1 else 0) + Count(s[1..], c)
  }

  /** Glues pieces back together with a separator between each pair. */
  function Join(parts: seq<string>, sep: char): string
    requires |parts| > 0
  {
    if |parts| == 1 then parts[0] else parts[0] + [sep] + Join(parts[1..], sep)
  }

  /** Cuts s at every occurrence of sep, as Go's strings.Split does. */
  function Split(s: string, sep: char): (parts: seq<string>)
    ensures |parts| == Count(s, sep) + 1
    ensures Join(parts, sep) == s
    ensures forall i :: 0 <= i < |parts| ==> sep !in parts[i]
  {
    if s == [] then [""]
    else
      var rest := Split(s[1..], sep);
      if s[0] == sep then
        [""] + rest
      else
        var parts := [[s[0]] + rest[0]] + rest[1..];
        assert Join(parts, sep) == s by {
          if |rest| > 1 {
            assert rest == [rest[0]] + rest[1..];
            assert Join(rest, sep) == rest[0] + [sep] + Join(rest[1..], sep);
            assert parts[1..] == rest[1..];
          }
        }
        assert forall i :: 1 <= i < |parts| ==> parts[i] == rest[i];
        parts
  }

  lemma JoinOfAtMostTwo(parts: seq<string>, sep: char)
    requires 1 <= |parts| <= 2
    ensures Join(parts, sep) == parts[0] + (if |parts| == 2 then [sep] + parts[1] else [])
  {
    if |parts| == 2 {
      assert Join(parts[1..], sep) == parts[1];
    }
  }

  /** Putting back the sign and the point recovers the text that was split. */
  lemma RenderOfParts(s: string, negative: bool, body: string, parts: seq<string>)
    requires negative <==> |s| > 0 && s[0] == '-'
    requires body == if negative then s[1..] else s
    requires parts == Split(body, '.') && |parts| <= 2
    ensures Render(Numeral(negative, parts[0], |parts| == 2, if |parts| == 2 then parts[1] else "")) == s
  {
    JoinOfAtMostTwo(parts, '.');
    assert s == (if negative then "-" else "") + body;
  }

  /** A numeral as written: an optional minus sign, the digits before the
      point, whether a point is written, and the digits after it. */
  datatype Numeral = Numeral(negative: bool, whole: string, point: bool, frac: string)

  /** Digits only, nothing after a missing point, and at least one digit. */
  predicate WellFormed(n: Numeral)
  {
    AllDigits(n.whole) && AllDigits(n.frac) && (n.point || n.frac == []) && |n.whole| + |n.frac| > 0
  }

  /** The text of a numeral. */
  function Render(n: Numeral): string
  {
    (if n.negative then "-" else "") + n.whole + (if n.point then "." + n.frac else "")
  }

  /** Splits the text into sign, whole digits and fraction digits, refusing
      more than one '.', any character other than a digit, '.' and a leading
      '-', and a numeral without digits. */
  function Scan(s: string): (r: Option<Numeral>)
    ensures r.Some? ==> WellFormed(r.value) && Render(r.value) == s
  {
    var negative := |s| > 0 && s[0] == '-';
    var body := if negative then s[1..] else s;
    var parts := Split(body, '.');
    if |parts| > 2 then None
    else
      var point := |parts| == 2;
      var whole, frac := parts[0], if point then parts[1] else "";
      if AllDigits(whole) && AllDigits(frac) && |whole| + |frac| > 0 then
        RenderOfParts(s, negative, body, parts);
        Some(Numeral(negative, whole, point, frac))
      else None
  }

  /** The exact fraction a well-formed numeral denotes: digits * 10^-|frac|. */
  function ToBPS(n: Numeral): BPS
    requires WellFormed(n)
  {
    var magnitude := DigitsValue(n.whole) * Pow10(|n.frac|) + DigitsValue(n.frac);
    NewFromScaled(if n.negative then -magnitude else magnitude, Pow10(|n.frac|))
  }

  /** Parses s as a number of amounts ("0.15" is 15%), or reports InvalidFormat. */
  function NewFromString(s: string): (r: Result<BPS, ParseError>)
    ensures r.Ok? <==> Scan(s).Some?
    ensures r.Ok? ==> Exact(r.value) == NumeralValue(Scan(s).value)
  {
    match Scan(s)
    case None => Err(InvalidFormat)
    case Some(n) =>
      ToBPSValue(n);
      Ok(ToBPS(n))
  }

  /** Like NewFromString, but panics where NewFromString reports an error. */
  function MustFromString(s: string): (r: Outcome<BPS>)
    ensures r.Panicked? <==> NewFromString(s).Err?
    ensures r.Returned? ==> r.value == NewFromString(s).value
  {
    match NewFromString(s)
    case Err(_) => Panicked
    case Ok(b) => Returned(b)
  }

  // The meaning of a numeral, defined digit by digit from the point outward

  /** 0.d1 d2 d3 ... as a real number. */
  function FractionValue(ds: string): real
    requires AllDigits(ds)
  {
    if ds == [] then 0.0 else (DigitValue(ds[0]) as real + FractionValue(ds[1..])) / 10.0
  }

  function NumeralValue(n: Numeral): real
    requires WellFormed(n)
  {
    var magnitude := DigitsValue(n.whole) as real + FractionValue(n.frac);
    if n.negative then -magnitude else magnitude
  }

  // Properties

  /** Appending digits shifts the earlier ones up by a power of ten. */
  lemma {:induction false} DigitsValueAppend(x: string, y: string)
    requires AllDigits(x) && AllDigits(y)
    ensures AllDigits(x + y)
    ensures DigitsValue(x + y) == DigitsValue(x) * Pow10(|y|) + DigitsValue(y)
    decreases |y|
  {
    if y == [] {
      assert x + y == x;
    } else {
      var y', c := y[..|y| - 1], y[|y| - 1];
      assert (x + y)[..|x + y| - 1] == x + y' && (x + y)[|x + y| - 1] == c;
      DigitsValueAppend(x, y');
      var a, p, v, d := DigitsValue(x), Pow10(|y'|), DigitsValue(y'), DigitValue(c);
      assert DigitsValue(x + y) == (a * p + v) * 10 + d;
      assert DigitsValue(y) == v * 10 + d;
      assert Pow10(|y|) == 10 * p;
      ShiftDecimal(a, p, v, d);
    }
  }

  /** Regrouping a * p + v shifted by one decimal place with digit d. */
  lemma ShiftDecimal(a: int, p: int, v: int, d: int)
    ensures (a * p + v) * 10 + d == a * (10 * p) + (v * 10 + d)
  {
  }

  /** w + f / p written over the single denominator p. */
  lemma OverCommonDenominator(w: int, f: int, p: int)
    requires p > 0
    ensures (w * p + f) as real / p as real == w as real + f as real / p as real
  {
    SumOfQuotients(w, 1, f, p);
    assert w * p + f * 1 == w * p + f && 1 * p == p;
  }

  /** Putting one more digit d in front of the fraction digits v / p. */
  lemma ShiftInDigit(d: int, v: int, p: int)
    requires p > 0
    ensures (d as real + v as real / p as real) / 10.0 == (d * p + v) as real / (10 * p) as real
  {
    OverCommonDenominator(d, v, p);
    var m := d * p + v;
    var q := m as real / p as real;
    assert m as real == q * p as real;
    assert (10 * p) as real == 10.0 * p as real;
    assert m as real == (q / 10.0) * (10 * p) as real;
  }

  /** The digit-by-digit reading of a fraction agrees with digits / 10^length. */
  lemma {:induction false} FractionValueIsQuotient(ds: string)
    requires AllDigits(ds)
    ensures FractionValue(ds) == DigitsValue(ds) as real / Pow10(|ds|) as real
  {
    if ds != [] {
      var t := ds[1..];
      var d, v, p := DigitValue(ds[0]), DigitsValue(t), Pow10(|t|);
      assert DigitsValue(ds) == d * p + v by {
        DigitsValueAppend([ds[0]], t);
        assert [ds[0]] + t == ds;
        assert [ds[0]][..0] == [];
      }
      assert Pow10(|ds|) == 10 * p;
      FractionValueIsQuotient(t);
      ShiftInDigit(d, v, p);
    }
  }

  /** The fraction built from a numeral denotes the numeral's value. */
  lemma ToBPSValue(n: Numeral)
    requires WellFormed(n)
    ensures Exact(ToBPS(n)) == NumeralValue(n)
  {
    var w, f, p := DigitsValue(n.whole), DigitsValue(n.frac), Pow10(|n.frac|);
    var m := w * p + f;
    var magnitude := w as real + FractionValue(n.frac);
    assert magnitude == m as real / p as real by {
      FractionValueIsQuotient(n.frac);
      OverCommonDenominator(w, f, p);
    }
    if n.negative {
      assert Exact(ToBPS(n)) == (-m) as real / p as real;
      NegateQuotient(m, p);
      assert NumeralValue(n) == -magnitude;
    } else {
      assert Exact(ToBPS(n)) == m as real / p as real;
      assert NumeralValue(n) == magnitude;
    }
  }

  /** Cutting text without a separator yields the text itself. */
  lemma {:induction false} SplitNone(s: string, sep: char)
    requires sep !in s
    ensures Split(s, sep) == [s]
  {
    if s != [] {
      SplitNone(s[1..], sep);
    }
  }

  /** Cutting at the one separator between two separator-free pieces. */
  lemma {:induction false} SplitOnce(x: string, y: string, sep: char)
    requires sep !in x && sep !in y
    ensures Split(x + [sep] + y, sep) == [x, y]
  {
    if x == [] {
      assert x + [sep] + y == [sep] + y;
      assert ([sep] + y)[1..] == y;
      SplitNone(y, sep);
    } else {
      SplitOnce(x[1..], y, sep);
      assert (x + [sep] + y)[1..] == x[1..] + [sep] + y;
      assert [x[0]] + x[1..] == x;
    }
  }

  /** Every well-formed numeral's text scans back to that numeral. */
  lemma ScanRender(n: Numeral)
    requires WellFormed(n)
    ensures Scan(Render(n)) == Some(n)
  {
    var s := Render(n);
    var body := n.whole + (if n.point then "." + n.frac else "");
    assert s == (if n.negative then "-" else "") + body;
    assert '.' !in n.whole && '.' !in n.frac by {
      assert forall c :: c in n.whole ==> IsDigit(c);
      assert forall c :: c in n.frac ==> IsDigit(c);
    }
    var negative := |s| > 0 && s[0] == '-';
    assert negative == n.negative && (if negative then s[1..] else s) == body by {
      if n.negative {
        assert s[0] == '-' && s[1..] == body;
      } else {
        assert s == body && |body| > 0;
        assert IsDigit(body[0]) || body[0] == '.';
      }
    }
    if n.point {
      assert body == n.whole + ['.'] + n.frac;
      SplitOnce(n.whole, n.frac, '.');
    } else {
      assert body == n.whole;
      SplitNone(n.whole, '.');
    }
  }

  /** NewFromString accepts exactly the texts of well-formed numerals, and
      then yields the numeral's value. */
  lemma ParseRoundTrip(n: Numeral)
    requires WellFormed(n)
    ensures NewFromString(Render(n)) == Ok(ToBPS(n))
    ensures Exact(ToBPS(n)) == NumeralValue(n)
  {
    ScanRender(n);
    ToBPSValue(n);
  }

  /** Every character of a numeral's text is a digit, a '.', or a leading '-'. */
  lemma RenderCharacters(n: Numeral, i: int)
    requires WellFormed(n) && 0 <= i < |Render(n)|
    ensures IsDigit(Render(n)[i]) || Render(n)[i] == '.' || (i == 0 && Render(n)[i] == '-')
  {
    var sign := if n.negative then "-" else "";
    var tail := if n.point then "." + n.frac else "";
    assert Render(n) == sign + n.whole + tail;
    if i >= |sign| + |n.whole| {
      var j := i - |sign| - |n.whole|;
      assert Render(n)[i] == tail[j];
      if j > 0 {
        assert tail[j] == n.frac[j - 1];
      }
    } else if i >= |sign| {
      assert Render(n)[i] == n.whole[i - |sign|];
    }
  }

  /** A character other than a digit, '.' or a leading '-' is refused: this
      covers base prefixes such as "0b", "0o" and "0x" and hex digits. */
  lemma RejectsForeignCharacter(s: string, i: int)
    requires 0 <= i < |s|
    requires !IsDigit(s[i]) && s[i] != '.' && !(i == 0 && s[i] == '-')
    ensures NewFromString(s) == Err(InvalidFormat)
  {
    if Scan(s).Some? {
      RenderCharacters(Scan(s).value, i);
    }
  }

  /** A text with two or more '.' is refused. */
  lemma RejectsSecondPoint(s: string)
    requires Count(s, '.') >= 2
    ensures NewFromString(s) == Err(InvalidFormat)
  {
    if |s| > 0 && s[0] == '-' {
      assert Count(s, '.') == Count(s[1..], '.');
    }
  }

  /** MustFromString returns exactly what NewFromString returns on success. */
  lemma MustAgreesOnSuccess(s: string, b: BPS)
    ensures MustFromString(s) == Returned(b) <==> NewFromString(s) == Ok(b)
  {
  }
}
