/** toHsl and darken of app.js: parsing the CSS colour forms of the base map, printing the
    darkened colour, and walking nested expressions. Printing a fractional alpha is
    ECMAScript's Number::toString, taken as a function `show`; integers are printed here. */
module Darken {
  import opened Schema
  import opened Text
  import opened Hsl

  // ---------------------------------------------------------------------------
  // Number texts
  // ---------------------------------------------------------------------------

  function DigitOf(d: nat): char
    requires d < 10
  {
    ('0' as int + d) as char
  }

  function ShowNat(n: nat): string {
    if n < 10 then [DigitOf(n)] else ShowNat(n / 10) + [DigitOf(n % 10)]
  }

  function ShowInt(n: int): string {
    if n < 0 then "-" + ShowNat(-n) else ShowNat(n)
  }

  /** The text of a number that Math.round returned. */
  function ShowRounded(x: Num): string {
    match x
    case NaN => "NaN"
    case PosInf => "Infinity"
    case NegInf => "-Infinity"
    case Fin(r) => ShowInt(r.Floor)
  }

  function ShowAlpha(show: real -> string, a: Num): string {
    if a.Fin? then show(a.r) else ShowRounded(a)
  }

  /** The white space parseFloat skips. */
  predicate IsJsSpace(c: char) {
    (IsSpace(c) && c != '\U{85}') || c == '\U{FEFF}'
  }

  function TrimJs(s: string): string {
    if s != "" && IsJsSpace(s[0]) then TrimJs(s[1..]) else s
  }

  function DigitRun(s: string): (n: nat)
    ensures n <= |s|
    ensures forall i :: 0 <= i < n ==> IsDigit(s[i])
    ensures n < |s| ==> !IsDigit(s[n])
  {
    if s != "" && IsDigit(s[0]) then 1 + DigitRun(s[1..]) else 0
  }

  function DigitValue(c: char): nat
    requires IsDigit(c)
  {
    c as int - '0' as int
  }

  function NatOf(s: string): nat
    requires forall i :: 0 <= i < |s| ==> IsDigit(s[i])
  {
    if s == "" then 0 else NatOf(s[..|s| - 1]) * 10 + DigitValue(s[|s| - 1])
  }

  /** x moved by e decimal places. */
  function Shifted(x: real, e: int): real
    decreases if e >= 0 then e else -e
  {
    if e == 0 then x else if e > 0 then 10.0 * Shifted(x, e - 1) else Shifted(x, e + 1) / 10.0
  }

  /** The exponent part at the start of s; 0 when there is none. */
  function Exponent(s: string): int {
    if s != "" && (s[0] == 'e' || s[0] == 'E') then
      var t := if |s| > 1 && (s[1] == '+' || s[1] == '-') then s[2..] else s[1..];
      var n := DigitRun(t);
      if n == 0 then 0
      else if s[1] == '-' then 0 - NatOf(t[..n]) else NatOf(t[..n])
    else 0
  }

  /** Digits with an optional fraction and exponent; NaN without a digit. */
  function ParseDecimal(s: string): Num {
    var n := DigitRun(s);
    var point := n < |s| && s[n] == '.';
    var fraction := if point then DigitRun(s[n + 1..]) else 0;
    if n == 0 && fraction == 0 then NaN
    else
      var digits := s[..n] + if point then s[n + 1..n + 1 + fraction] else "";
      Fin(Shifted(NatOf(digits) as real, Exponent(if point then s[n + 1 + fraction..] else s[n..]) - fraction))
  }

  predicate IsInfinityWord(s: string) {
    |s| >= 8 && s[..8] == "Infinity"
  }

  function ParseUnsigned(s: string): Num {
    if IsInfinityWord(s) then PosInf else ParseDecimal(s)
  }

  function Negate(x: Num): Num {
    match x
    case NaN => NaN
    case PosInf => NegInf
    case NegInf => PosInf
    case Fin(r) => Fin(-r)
  }

  /** parseFloat: the longest decimal prefix after white space. */
  function ParseFloat(s: string): Num {
    var t := TrimJs(s);
    if t != "" && t[0] == '-' then Negate(ParseUnsigned(t[1..]))
    else if t != "" && t[0] == '+' then ParseUnsigned(t[1..])
    else ParseUnsigned(t)
  }

  // ---------------------------------------------------------------------------
  // Colours
  // ---------------------------------------------------------------------------

  predicate IsHexDigit(c: char) {
    IsDigit(c) || 'a' <= Lower(c) <= 'f'
  }

  function HexValue(c: char): int
    requires IsHexDigit(c)
  {
    if IsDigit(c) then c as int - '0' as int else Lower(c) as int - 'a' as int + 10
  }

  function HexByte(hex: string, i: nat): Num
    requires i + 1 < |hex| && forall k :: 0 <= k < |hex| ==> IsHexDigit(hex[k])
  {
    Fin((HexValue(hex[i]) * 16 + HexValue(hex[i + 1])) as real)
  }

  /** hex.split("").map((x) => x + x).join("") */
  function Doubled(hex: string): string {
    seq(2 * |hex|, i requires 0 <= i < 2 * |hex| => hex[i / 2])
  }

  /** The group of /^<name>a?\(([^)]+)\)$/i, if the whole of c matches. */
  function CallBody(c: string, name: string): Option<string> {
    if |c| < |name| || ToLower(c[..|name|]) != name then None
    else
      var rest := c[|name|..];
      var call := if rest != "" && Lower(rest[0]) == 'a' then rest[1..] else rest;
      if |call| >= 3 && call[0] == '(' && call[|call| - 1] == ')' && ')' !in call[1..|call| - 1]
          then Some(call[1..|call| - 1])
      else None
  }

  /** parseFloat(p[i]), where a missing part reads as NaN. */
  function Part(p: seq<string>, i: nat): Num {
    if i < |p| then ParseFloat(p[i]) else NaN
  }

  function AlphaPart(p: seq<string>): Num {
    if 3 < |p| then ParseFloat(p[3]) else Fin(1.0)
  }

  function HexColour(c: string): Option<Hsla> {
    if |c| < 4 || |c| > 9 || c[0] != '#' || exists k :: 1 <= k < |c| && !IsHexDigit(c[k]) then None
    else
      var hex := if |c| - 1 < 6 then Doubled(c[1..]) else c[1..];
      var a := if |hex| >= 8 then HexByte(hex, 6).r / 255.0 else 1.0;
      Some(RgbToHsl(HexByte(hex, 0), HexByte(hex, 2), HexByte(hex, 4), Fin(a)))
  }

  /** toHsl; None stands for null. */
  function ToHsl(c: string): Option<Hsla> {
    if HexColour(c).Some? then HexColour(c)
    else if CallBody(c, "rgb").Some? then
      var p := Split(CallBody(c, "rgb").value, ',');
      Some(RgbToHsl(Part(p, 0), Part(p, 1), Part(p, 2), AlphaPart(p)))
    else if CallBody(c, "hsl").Some? then
      var p := Split(CallBody(c, "hsl").value, ',');
      Some(Hsla(Part(p, 0), Part(p, 1), Part(p, 2), AlphaPart(p)))
    else None
  }

  /** The template literal of darken. */
  function Print(show: real -> string, h: Num, s: Num, l: Num, a: Num): string {
    "hsla(" + (ShowRounded(h) + ("," + ((" " + ShowRounded(s) + "%") + ("," + ((" " + ShowRounded(l) + "%") + ("," +
    (" " + ShowAlpha(show, a)))))))) + ")"
  }

  // ---------------------------------------------------------------------------
  // Expressions
  // ---------------------------------------------------------------------------

  /** A style value: an array, a string, or anything else. */
  datatype Expr = Arr(items: seq<Expr>) | Str(text: string) | Other(id: int)

  function DarkenText(show: real -> string, c: string, dL: real): string {
    match ToHsl(c)
    case None => c
    case Some(hsl) => Print(show, hsl.h.Round(), hsl.s.Round(), hsl.l.LowerBy(dL).Round(), hsl.a)
  }

  function DarkenExpr(show: real -> string, e: Expr, dL: real): Expr {
    match e
    case Arr(items) => Arr(seq(|items|, i requires 0 <= i < |items| => DarkenExpr(show, items[i], dL)))
    case Str(text) => Str(DarkenText(show, text, dL))
    case Other(_) => e
  }

  /** What Number::toString promises of the text of an alpha: reading it back gives a number of
      the same text (the text of a double need not be its exact value, 1/3 say), and it contains
      neither of the characters that delimit it. */
  predicate Shows(show: real -> string, a: Num) {
    a.Fin? ==>
      var back := ParseFloat(" " + show(a.r));
      back.Fin? && show(back.r) == show(a.r) && Plain(show(a.r))
  }

  predicate ShowsAlphas(show: real -> string, e: Expr) {
    match e
    case Arr(items) => forall i :: 0 <= i < |items| ==> ShowsAlphas(show, items[i])
    case Str(text) => ToHsl(text).Some? ==> Shows(show, ToHsl(text).value.a)
    case Other(_) => true
  }

  // ---------------------------------------------------------------------------
  // The printed form parses back
  // ---------------------------------------------------------------------------

  predicate Whole(x: Num) {
    x.Fin? ==> x.r == x.r.Floor as real
  }

  lemma {:induction false} ShowNatReadsBack(n: nat)
    ensures |ShowNat(n)| > 0 && (forall i :: 0 <= i < |ShowNat(n)| ==> IsDigit(ShowNat(n)[i])) && NatOf(ShowNat(n)) == n
  {
    if n < 10 {
      assert ShowNat(n)[..0] == "";
    } else {
      ShowNatReadsBack(n / 10);
      assert ShowNat(n)[..|ShowNat(n)| - 1] == ShowNat(n / 10);
    }
  }

  lemma {:induction false} RunOfDigits(s: string, rest: string)
    requires (forall i :: 0 <= i < |s| ==> IsDigit(s[i])) && (rest == "" || rest == "%")
    ensures DigitRun(s + rest) == |s|
  {
    if s == "" {
      assert s + rest == rest;
    } else {
      assert (s + rest)[1..] == s[1..] + rest;
      RunOfDigits(s[1..], rest);
    }
  }

  lemma DecimalParses(s: string, rest: string)
    requires s != "" && (forall i :: 0 <= i < |s| ==> IsDigit(s[i])) && (rest == "" || rest == "%")
    ensures ParseDecimal(s + rest) == Fin(NatOf(s) as real)
  {
    RunOfDigits(s, rest);
    var t := s + rest;
    assert t[..|s|] == s && t[|s|..] == rest;
    assert s + "" == s && Exponent(rest) == 0;
  }

  lemma DigitsParse(s: string, rest: string)
    requires s != "" && (forall i :: 0 <= i < |s| ==> IsDigit(s[i])) && (rest == "" || rest == "%")
    ensures ParseUnsigned(s + rest) == Fin(NatOf(s) as real)
  {
    DecimalParses(s, rest);
    assert (s + rest)[0] == s[0] && "Infinity"[0] == 'I';
  }

  lemma TrimOne(s: string)
    requires s != "" && !IsJsSpace(s[0])
    ensures TrimJs(s) == s && TrimJs(" " + s) == s
  {
    assert (" " + s)[1..] == s;
  }

  /** parseFloat reads x from s, also after a blank. */
  predicate Reads(s: string, x: Num) {
    ParseFloat(s) == x && ParseFloat(" " + s) == x
  }

  /** None of the characters that delimit the parts of hsla(...). */
  predicate Plain(s: string) {
    ',' !in s && ')' !in s
  }

  /** Every number darken prints, with or without the per cent sign, is read back as it was. */
  lemma RoundedReadsBack(x: Num, rest: string)
    requires Whole(x) && (rest == "" || rest == "%")
    ensures Reads(ShowRounded(x) + rest, x) && Plain(ShowRounded(x))
  {
    if x.Fin? {
      IntReadsBack(x.r.Floor, rest);
      IntIsPlain(x.r.Floor);
    } else {
      WordReadsBack(x, rest);
    }
  }

  lemma NatReadsBack(n: nat, rest: string)
    requires rest == "" || rest == "%"
    ensures ParseUnsigned(ShowNat(n) + rest) == Fin(n as real)
    ensures IsDigit((ShowNat(n) + rest)[0]) && Plain(ShowNat(n))
  {
    ShowNatReadsBack(n);
    DigitsParse(ShowNat(n), rest);
  }

  lemma MinusReads(t: string, x: real)
    requires ParseUnsigned(t) == Fin(x)
    ensures Reads("-" + t, Fin(-x))
  {
    TrimOne("-" + t);
    assert ("-" + t)[1..] == t;
  }

  lemma DigitsRead(t: string, x: real)
    requires t != "" && IsDigit(t[0]) && ParseUnsigned(t) == Fin(x)
    ensures Reads(t, Fin(x))
  {
    TrimOne(t);
  }

  lemma NegativeReadsBack(m: nat, n: int, rest: string)
    requires n == 0 - m && m > 0 && (rest == "" || rest == "%")
    ensures Reads(ShowInt(n) + rest, Fin(n as real))
  {
    NatReadsBack(m, rest);
    MinusReads(ShowNat(m) + rest, m as real);
    assert ShowInt(n) + rest == "-" + (ShowNat(m) + rest);
    assert n as real == -(m as real);
  }

  lemma NaturalReadsBack(n: nat, rest: string)
    requires rest == "" || rest == "%"
    ensures Reads(ShowNat(n) + rest, Fin(n as real))
  {
    NatReadsBack(n, rest);
    DigitsRead(ShowNat(n) + rest, n as real);
  }

  lemma IntIsPlain(n: int)
    ensures Plain(ShowInt(n))
  {
    NatReadsBack(if n < 0 then -n else n, "");
  }

  lemma IntReadsBack(n: int, rest: string)
    requires rest == "" || rest == "%"
    ensures Reads(ShowInt(n) + rest, Fin(n as real))
  {
    if n < 0 {
      NegativeReadsBack(-n, n, rest);
    } else {
      NaturalReadsBack(n, rest);
    }
  }

  lemma WordReadsBack(x: Num, rest: string)
    requires !x.Fin? && (rest == "" || rest == "%")
    ensures Reads(ShowRounded(x) + rest, x)
  {
    var s := ShowRounded(x) + rest;
    assert s[0] == ShowRounded(x)[0];
    TrimOne(s);
    if x == PosInf {
      assert ShowRounded(x) == "Infinity" && s[..8] == "Infinity";
    } else if x == NegInf {
      assert s[1..][..8] == "Infinity";
    } else {
      assert DigitRun(s) == 0;
    }
  }

  lemma AlphaReadsBack(show: real -> string, a: Num)
    requires Shows(show, a)
    ensures ShowAlpha(show, ParseFloat(" " + ShowAlpha(show, a))) == ShowAlpha(show, a)
    ensures Plain(ShowAlpha(show, a))
  {
    if !a.Fin? {
      RoundedReadsBack(a, "");
      assert ShowRounded(a) + "" == ShowRounded(a);
    }
  }

  lemma SplitNext(a: string, rest: string)
    requires ',' !in a
    ensures var r := Split(a + ("," + rest), ',');
            |r| == |Split(rest, ',')| + 1 && r[0] == a && r[1..] == Split(rest, ',')
  {
    assert a + ("," + rest) == a + [','] + rest;
    SplitFirst(a, ',', rest);
  }

  lemma SplitFour(a: string, b: string, c: string, d: string)
    requires ',' !in a && ',' !in b && ',' !in c && ',' !in d
    ensures var p := Split(a + ("," + (b + ("," + (c + ("," + d))))), ',');
            |p| == 4 && p[0] == a && p[1] == b && p[2] == c && p[3] == d
  {
    var cd := c + ("," + d);
    var bcd := b + ("," + cd);
    SplitNone(d, ',');
    SplitNext(c, d);
    SplitNext(b, cd);
    SplitNext(a, bcd);
    var p := Split(a + ("," + bcd), ',');
    assert p[1] == p[1..][0] && p[2] == p[1..][1..][0] && p[3] == p[1..][1..][1..][0];
  }

  lemma HslaIsCall(body: string)
    requires body != "" && ')' !in body
    ensures ToHsl("hsla(" + body + ")") ==
            (var p := Split(body, ','); Some(Hsla(Part(p, 0), Part(p, 1), Part(p, 2), AlphaPart(p))))
  {
    var c := "hsla(" + body + ")";
    NoOtherForm(c, body);
    assert CallBody(c, "hsl") == Some(body) by {
      assert c[..3] == "hsl" && ToLower("hsl") == "hsl";
      assert c[3..] == "a(" + body + ")";
      assert c[3..][1..] == "(" + body + ")";
      var call := "(" + body + ")";
      assert call[1..|call| - 1] == body;
    }
  }

  lemma NoOtherForm(c: string, body: string)
    requires c == "hsla(" + body + ")"
    ensures HexColour(c).None? && CallBody(c, "rgb").None?
  {
    assert c[0] == 'h';
    assert ToLower(c[..3])[0] == 'h' && "rgb"[0] == 'r';
  }

  lemma FourPartsParse(th: string, ts: string, tl: string, ta: string)
    requires ',' !in th && ',' !in ts && ',' !in tl && ',' !in ta
    requires ')' !in th && ')' !in ts && ')' !in tl && ')' !in ta
    ensures ToHsl("hsla(" + (th + ("," + (ts + ("," + (tl + ("," + ta)))))) + ")") ==
            Some(Hsla(ParseFloat(th), ParseFloat(ts), ParseFloat(tl), ParseFloat(ta)))
  {
    SplitFour(th, ts, tl, ta);
    var body := th + ("," + (ts + ("," + (tl + ("," + ta)))));
    assert ')' !in body by {
      NoParen(tl, ta);
      NoParen(ts, tl + ("," + ta));
      NoParen(th, ts + ("," + (tl + ("," + ta))));
    }
    HslaIsCall(body);
  }

  // ---------------------------------------------------------------------------
  // Decimals, and colours in rgb form
  // ---------------------------------------------------------------------------

  predicate AllDigits(s: string) {
    forall i :: 0 <= i < |s| ==> IsDigit(s[i])
  }

  lemma {:induction false} DigitsBefore(s: string, rest: string)
    requires AllDigits(s) && (rest == "" || !IsDigit(rest[0]))
    ensures DigitRun(s + rest) == |s|
  {
    if s == "" {
      assert s + rest == rest;
    } else {
      assert (s + rest)[1..] == s[1..] + rest;
      DigitsBefore(s[1..], rest);
    }
  }

  /** The k-th power of ten. */
  function Tens(k: nat): nat {
    if k == 0 then 1 else 10 * Tens(k - 1)
  }

  lemma {:induction false} ShiftedDown(x: real, k: nat)
    ensures Shifted(x, 0 - k) * Tens(k) as real == x
  {
    if k == 0 {
    } else {
      ShiftedDown(x, k - 1);
      TenTimes(Shifted(x, 0 - (k - 1)), Tens(k - 1));
    }
  }

  lemma TenTimes(y: real, n: nat)
    ensures y / 10.0 * (10 * n) as real == y * n as real
  {
    assert (10 * n) as real == 10.0 * n as real;
    Regroup(y, n as real);
  }

  lemma Regroup(y: real, n: real)
    ensures y / 10.0 * (10.0 * n) == y * n
  {
    var z := y / 10.0;
    assert z * (10.0 * n) == (10.0 * z) * n;
  }

  lemma PointSlices(w: string, f: string, t: string)
    requires t == w + ("." + f)
    ensures |t| == |w| + 1 + |f| && t[..|w|] == w && t[|w|] == '.' && t[|w| + 1..] == f
    ensures t[|w| + 1..|w| + 1 + |f|] == f && t[|w| + 1 + |f|..] == ""
  {
  }

  lemma PointRuns(w: string, f: string)
    requires AllDigits(w) && AllDigits(f)
    ensures DigitRun(w + ("." + f)) == |w| && DigitRun(f) == |f|
  {
    assert ("." + f)[0] == '.';
    DigitsBefore(w, "." + f);
    DigitsBefore(f, "");
    assert f + "" == f;
  }

  lemma PointParses(t: string, n: nat, k: nat, digits: string, e: int)
    requires 0 < k && n + 1 + k == |t| && t[n] == '.' && DigitRun(t) == n && DigitRun(t[n + 1..]) == k
    requires digits == t[..n] + t[n + 1..n + 1 + k] && AllDigits(digits) && e + k == 0
    ensures ParseDecimal(t) == Fin(Shifted(NatOf(digits) as real, e))
  {
    assert t[n + 1 + k..] == "" && Exponent("") == 0;
  }

  lemma PointNumber(t: string, n: nat, k: nat, digits: string) returns (x: real)
    requires 0 < k && n + 1 + k == |t| && t[n] == '.' && DigitRun(t) == n && DigitRun(t[n + 1..]) == k
    requires digits == t[..n] + t[n + 1..n + 1 + k] && AllDigits(digits)
    ensures ParseDecimal(t) == Fin(x) && Scales(x, NatOf(digits) as real, k, true)
  {
    var e := 0 - k;
    PointParses(t, n, k, digits, e);
    x := Shifted(NatOf(digits) as real, e);
    ShiftedEither(NatOf(digits) as real, e, k, true);
  }

  lemma PointValue(w: string, f: string, t: string) returns (x: real)
    requires AllDigits(w) && AllDigits(f) && w != "" && f != "" && t == w + ("." + f)
    ensures AllDigits(w + f) && ParseDecimal(t) == Fin(x) && Scales(x, NatOf(w + f) as real, |f|, true)
  {
    PointSlices(w, f, t);
    PointRuns(w, f);
    x := PointNumber(t, |w|, |f|, w + f);
  }

  lemma DigitsAreNoWord(t: string, x: real)
    requires t != "" && IsDigit(t[0]) && ParseDecimal(t) == Fin(x)
    ensures ParseUnsigned(t) == Fin(x)
  {
    assert "Infinity"[0] == 'I';
  }

  /** Digits, a point and k digits read as the number of all the digits over the k-th power of
      ten. */
  lemma DecimalReads(w: string, f: string) returns (x: real)
    requires AllDigits(w) && AllDigits(f) && w != "" && f != ""
    ensures Reads(w + ("." + f), Fin(x))
    ensures AllDigits(w + f) && Scales(x, NatOf(w + f) as real, |f|, true)
  {
    var t := w + ("." + f);
    x := PointValue(w, f, t);
    assert t[0] == w[0];
    DigitsAreNoWord(t, x);
    DigitsRead(t, x);
  }

  lemma {:induction false} ShiftedUp(x: real, k: nat)
    ensures Shifted(x, k) == x * Tens(k) as real
  {
    if k == 0 {
    } else {
      ShiftedUp(x, k - 1);
      TenMore(x, Tens(k - 1));
    }
  }

  lemma TenMore(x: real, n: nat)
    ensures 10.0 * (x * n as real) == x * (10 * n) as real
  {
    assert (10 * n) as real == 10.0 * n as real;
  }

  lemma PlainExponent(d: string, t: string)
    requires AllDigits(d) && d != "" && |t| == |d| + 1 && (t[0] == 'e' || t[0] == 'E') && t[1..] == d
    ensures Exponent(t) == NatOf(d)
  {
    DigitsBefore(d, "");
    assert d + "" == d && d[..|d|] == d && t[1] == d[0];
  }

  lemma SignedExponent(sign: char, d: string, t: string)
    requires AllDigits(d) && d != "" && |t| == |d| + 2 && (t[0] == 'e' || t[0] == 'E') && t[2..] == d
    requires t[1] == sign && (sign == '+' || sign == '-')
    ensures if sign == '-' then Exponent(t) + NatOf(d) == 0 else Exponent(t) == NatOf(d)
  {
    DigitsBefore(d, "");
    assert d + "" == d && d[..|d|] == d;
  }

  /** An exponent at the end of a text, in either case and with any sign. */
  lemma ExponentIs(letter: char, sign: string, d: string, t: string)
    requires (letter == 'e' || letter == 'E') && (sign == "" || sign == "+" || sign == "-")
    requires AllDigits(d) && d != "" && t == [letter] + (sign + d)
    ensures if sign == "-" then Exponent(t) + NatOf(d) == 0 else Exponent(t) == NatOf(d)
  {
    if sign == "" {
      assert t[1..] == d;
      PlainExponent(d, t);
    } else {
      assert t[2..] == d;
      SignedExponent(sign[0], d, t);
    }
  }

  lemma WholeShifted(t: string, n: nat, w: string, e: int)
    requires n < |t| && DigitRun(t) == n == |w| > 0 && t[..n] == w && AllDigits(w) && t[n] != '.'
    requires Exponent(t[n..]) == e
    ensures ParseDecimal(t) == Fin(Shifted(NatOf(w) as real, e))
  {
    assert w + "" == w;
  }

  lemma ExponentSlices(w: string, letter: char, rest: string, t: string)
    requires AllDigits(w) && !IsDigit(letter) && t == w + ([letter] + rest)
    ensures |w| < |t| && DigitRun(t) == |w| && t[..|w|] == w && t[|w|] == letter && t[|w|..] == [letter] + rest
  {
    assert ([letter] + rest)[0] == letter;
    DigitsBefore(w, [letter] + rest);
  }

  /** y is x over the n-th power of ten, or times it. */
  predicate Scales(y: real, x: real, n: nat, down: bool) {
    if down then y * Tens(n) as real == x else y == x * Tens(n) as real
  }

  lemma ScalesMean(y: real, x: real, n: nat, tens: nat)
    requires tens == Tens(n)
    ensures Scales(y, x, n, true) <==> y * tens as real == x
    ensures Scales(y, x, n, false) <==> y == x * tens as real
    ensures n > 0 ==> tens == 10 * Tens(n - 1)
    ensures n == 0 ==> tens == 1
  {
  }

  lemma ShiftedEither(x: real, e: int, n: nat, down: bool)
    requires if down then e + n == 0 else e == n
    ensures Scales(Shifted(x, e), x, n, down)
  {
    if down {
      ShiftedDown(x, n);
    } else {
      ShiftedUp(x, n);
    }
  }

  lemma ExponentParses(w: string, letter: char, rest: string, t: string, e: int)
    requires AllDigits(w) && w != "" && (letter == 'e' || letter == 'E') && t == w + ([letter] + rest)
    requires Exponent([letter] + rest) == e
    ensures IsDigit(t[0]) && ParseDecimal(t) == Fin(Shifted(NatOf(w) as real, e))
  {
    ExponentSlices(w, letter, rest, t);
    WholeShifted(t, |w|, w, e);
    assert t[0] == w[0];
  }

  lemma ExponentValue(w: string, letter: char, rest: string, t: string, e: int) returns (x: real)
    requires AllDigits(w) && w != "" && (letter == 'e' || letter == 'E') && t == w + ([letter] + rest)
    requires Exponent([letter] + rest) == e
    ensures x == Shifted(NatOf(w) as real, e) && Reads(t, Fin(x))
  {
    ExponentParses(w, letter, rest, t, e);
    x := Shifted(NatOf(w) as real, e);
    DigitsAreNoWord(t, x);
    DigitsRead(t, x);
  }

  lemma ExponentOf(letter: char, sign: string, d: string, rest: string) returns (e: int)
    requires (letter == 'e' || letter == 'E') && (sign == "" || sign == "+" || sign == "-")
    requires AllDigits(d) && d != "" && rest == sign + d
    ensures e == Exponent([letter] + rest) && if sign == "-" then e + NatOf(d) == 0 else e == NatOf(d)
  {
    e := Exponent([letter] + rest);
    ExponentIs(letter, sign, d, [letter] + rest);
  }

  /** Digits with an exponent read as their number times or over a power of ten. */
  lemma ExponentReads(w: string, letter: char, sign: string, d: string, rest: string, t: string) returns (x: real)
    requires AllDigits(w) && w != "" && AllDigits(d) && d != ""
    requires (letter == 'e' || letter == 'E') && (sign == "" || sign == "+" || sign == "-")
    requires rest == sign + d && t == w + ([letter] + rest)
    ensures Reads(t, Fin(x)) && Scales(x, NatOf(w) as real, NatOf(d), sign == "-")
  {
    var e := ExponentOf(letter, sign, d, rest);
    x := ExponentValue(w, letter, rest, t, e);
    ShiftedEither(NatOf(w) as real, e, NatOf(d), sign == "-");
  }

  lemma RgbIsCall(c: string, body: string)
    requires (c == "rgb(" + body + ")" || c == "rgba(" + body + ")") && body != "" && ')' !in body
    ensures HexColour(c).None? && CallBody(c, "rgb") == Some(body)
  {
    assert c[0] == 'r' && c[..3] == "rgb" && ToLower("rgb") == "rgb";
    var call := "(" + body + ")";
    assert call[1..|call| - 1] == body;
    if c == "rgb(" + body + ")" {
      assert c[3..] == call;
    } else {
      assert c[3..] == "a" + call && c[3..][1..] == call;
    }
  }

  lemma SplitThree(a: string, b: string, c: string)
    requires ',' !in a && ',' !in b && ',' !in c
    ensures var p := Split(a + ("," + (b + ("," + c))), ','); |p| == 3 && p[0] == a && p[1] == b && p[2] == c
  {
    SplitNone(c, ',');
    SplitNext(b, c);
    SplitNext(a, b + ("," + c));
    var p := Split(a + ("," + (b + ("," + c))), ',');
    assert p[1] == p[1..][0] && p[2] == p[1..][1..][0];
  }

  lemma BlankNatReads(n: nat)
    ensures ParseFloat(ShowNat(n)) == Fin(n as real) && ParseFloat(" " + ShowNat(n)) == Fin(n as real)
    ensures Plain(ShowNat(n)) && Plain(" " + ShowNat(n))
  {
    NaturalReadsBack(n, "");
    NatReadsBack(n, "");
    assert ShowNat(n) + "" == ShowNat(n);
  }

  /** "rgb(r, g, b)" reads as the conversion of the three components, opaque. */
  lemma RgbReads(r: nat, g: nat, b: nat)
    ensures ToHsl("rgb(" + (ShowNat(r) + ("," + (" " + ShowNat(g) + ("," + (" " + ShowNat(b)))))) + ")") ==
            Some(RgbToHsl(Fin(r as real), Fin(g as real), Fin(b as real), Fin(1.0)))
  {
    var x, y, z := ShowNat(r), " " + ShowNat(g), " " + ShowNat(b);
    BlankNatReads(r);
    BlankNatReads(g);
    BlankNatReads(b);
    var body := x + ("," + (y + ("," + z)));
    SplitThree(x, y, z);
    assert ')' !in body by {
      NoParen(y, z);
      NoParen(x, y + ("," + z));
    }
    RgbIsCall("rgb(" + body + ")", body);
  }

  /** "rgba(r, g, b, a)" reads with the alpha that its last part reads as. */
  lemma RgbaReads(r: nat, g: nat, b: nat, alpha: string)
    requires Plain(alpha)
    ensures ToHsl("rgba(" + (ShowNat(r) +
            ("," + (" " + ShowNat(g) + ("," + (" " + ShowNat(b) + ("," + (" " + alpha))))))) + ")") ==
            Some(RgbToHsl(Fin(r as real), Fin(g as real), Fin(b as real), ParseFloat(" " + alpha)))
  {
    var x, y, z, a := ShowNat(r), " " + ShowNat(g), " " + ShowNat(b), " " + alpha;
    BlankNatReads(r);
    BlankNatReads(g);
    BlankNatReads(b);
    var body := x + ("," + (y + ("," + (z + ("," + a)))));
    SplitFour(x, y, z, a);
    assert ')' !in body by {
      NoParen(z, a);
      NoParen(y, z + ("," + a));
      NoParen(x, y + ("," + (z + ("," + a))));
    }
    RgbIsCall("rgba(" + body + ")", body);
  }

  /** A colour begins with a number sign, an r or an h, so words such as "interpolate" and "zoom"
      are none. */
  lemma OtherWordsAreNoColour(c: string)
    requires c == "" || c[0] !in {'#', 'r', 'R', 'h', 'H'}
    ensures ToHsl(c).None?
  {
    if |c| >= 3 {
      assert ToLower(c[..3])[0] == Lower(c[0]) && "rgb"[0] == 'r' && "hsl"[0] == 'h';
    }
  }

  /** The text of a rounded number. */
  lemma RoundedText(x: Num)
    ensures x == NaN ==> ShowRounded(x) == "NaN"
    ensures x == PosInf ==> ShowRounded(x) == "Infinity"
    ensures x == NegInf ==> ShowRounded(x) == "-Infinity"
    ensures x.Fin? && x.r >= 0.0 ==> ShowRounded(x) == ShowNat(x.r.Floor)
  {
  }

  lemma Flattened(a: string, b: string, c: string, d: string)
    ensures a + ("," + ((" " + b + "%") + ("," + ((" " + c + "%") + ("," + (" " + d)))))) ==
            a + (", " + (b + ("%, " + (c + ("%, " + d)))))
  {
    var tail := c + ("%, " + d);
    assert (" " + c + "%") + ("," + (" " + d)) == " " + tail;
    assert (" " + b + "%") + ("," + (" " + tail)) == " " + (b + ("%, " + tail));
  }

  /** The text that is printed: hsla(h, s%, l%, a). */
  lemma PrintedText(show: real -> string, h: Num, s: Num, l: Num, a: Num)
    ensures Print(show, h, s, l, a) ==
            "hsla(" + (ShowRounded(h) +
                (", " + (ShowRounded(s) + ("%, " + (ShowRounded(l) + ("%, " + ShowAlpha(show, a))))))) + ")"
  {
    Flattened(ShowRounded(h), ShowRounded(s), ShowRounded(l), ShowAlpha(show, a));
  }

  lemma NoParen(a: string, rest: string)
    requires ')' !in a && ')' !in rest
    ensures ')' !in a + ("," + rest)
  {
  }

  /** What darken prints, toHsl reads back: the three rounded numbers exactly, and an alpha of
      the same text. */
  lemma PrintedParsesBack(show: real -> string, h: Num, s: Num, l: Num, a: Num) returns (back: Num)
    requires Whole(h) && Whole(s) && Whole(l) && Shows(show, a)
    ensures ToHsl(Print(show, h, s, l, a)) == Some(Hsla(h, s, l, back))
    ensures back == ParseFloat(" " + ShowAlpha(show, a)) && ShowAlpha(show, back) == ShowAlpha(show, a)
  {
    var th, ts, tl, ta := ShowRounded(h), " " + ShowRounded(s) + "%", " " + ShowRounded(l) + "%",
        " " + ShowAlpha(show, a);
    RoundedReadsBack(h, "");
    assert th + "" == th;
    assert " " + ShowRounded(s) + "%" == " " + (ShowRounded(s) + "%")
        && " " + ShowRounded(l) + "%" == " " + (ShowRounded(l) + "%");
    RoundedReadsBack(s, "%");
    RoundedReadsBack(l, "%");
    AlphaReadsBack(show, a);
    FourPartsParse(th, ts, tl, ta);
    back := ParseFloat(ta);
  }

  /** The promise can be kept for every alpha at once, if need be by a text that gives its whole
      part only. So the results below are about every expression, whatever its colours. */
  lemma WholePartShows(a: Num)
    ensures Shows((x: real) => ShowInt(x.Floor), a)
  {
    if a.Fin? {
      IntReadsBack(a.r.Floor, "");
      IntIsPlain(a.r.Floor);
      assert ShowInt(a.r.Floor) + "" == ShowInt(a.r.Floor);
    }
  }

  /** ECMAScript writes the double nearest to the number, and promises that its text reads back
      as a number nearest to the same double: that is all the results below ask of a text. */
  lemma NearestDoubleShows(nearest: real -> real, text: real -> string, a: Num)
    requires a.Fin? ==>
               var t := text(nearest(a.r));
               var back := ParseFloat(" " + t);
               back.Fin? && nearest(back.r) == nearest(a.r) && Plain(t)
    ensures Shows((x: real) => text(nearest(x)), a)
  {
  }

  // ---------------------------------------------------------------------------
  // Hexadecimal colours
  // ---------------------------------------------------------------------------

  function HexChar(d: nat): char
    requires d < 16
  {
    if d < 10 then ('0' as int + d) as char else ('a' as int + d - 10) as char
  }

  function HexText(n: nat): string
    requires n < 256
  {
    [HexChar(n / 16), HexChar(n % 16)]
  }

  lemma HexReadsBack(n: nat)
    requires n < 256
    ensures IsHexDigit(HexText(n)[0]) && IsHexDigit(HexText(n)[1])
    ensures HexValue(HexText(n)[0]) * 16 + HexValue(HexText(n)[1]) == n
  {
  }

  /** "#rrggbb" and "#rrggbbaa" read as the four bytes they are written from. */
  lemma HexColourReadsBack(r: nat, g: nat, b: nat, a: Option<nat>)
    requires r < 256 && g < 256 && b < 256 && (a.Some? ==> a.value < 256)
    ensures var c := ['#'] + HexText(r) + HexText(g) + HexText(b) + (if a.Some? then HexText(a.value) else "");
            ToHsl(c) == Some(RgbToHsl(Fin(r as real), Fin(g as real), Fin(b as real),
                                      Fin(if a.Some? then a.value as real / 255.0 else 1.0)))
  {
    HexReadsBack(r);
    HexReadsBack(g);
    HexReadsBack(b);
    var t := if a.Some? then HexText(a.value) else "";
    if a.Some? {
      HexReadsBack(a.value);
    }
    var c := ['#'] + HexText(r) + HexText(g) + HexText(b) + t;
    var hex := c[1..];
    assert hex == HexText(r) + HexText(g) + HexText(b) + t;
    assert forall k :: 1 <= k < |c| ==> c[k] == hex[k - 1] && IsHexDigit(hex[k - 1]);
    BytesOf(hex, r, g, b, a, t);
  }

  lemma BytesOf(hex: string, r: nat, g: nat, b: nat, a: Option<nat>, t: string)
    requires r < 256 && g < 256 && b < 256 && (a.Some? ==> a.value < 256 && t == HexText(a.value))
    requires hex == HexText(r) + HexText(g) + HexText(b) + t && forall k :: 0 <= k < |hex| ==> IsHexDigit(hex[k])
    ensures HexByte(hex, 0) == Fin(r as real) && HexByte(hex, 2) == Fin(g as real) && HexByte(hex, 4) == Fin(b as real)
    ensures a.Some? ==> HexByte(hex, 6) == Fin(a.value as real)
  {
    HexReadsBack(r);
    HexReadsBack(g);
    HexReadsBack(b);
    if a.Some? {
      HexReadsBack(a.value);
    }
  }

  /** A short colour reads as the long one with every digit doubled. */
  lemma ShortHexIsDoubled(hex: string)
    requires 3 <= |hex| <= 4 && forall k :: 0 <= k < |hex| ==> IsHexDigit(hex[k])
    ensures ToHsl(['#'] + hex) == ToHsl(['#'] + Doubled(hex)) && ToHsl(['#'] + hex).Some?
  {
    var c, d := ['#'] + hex, ['#'] + Doubled(hex);
    assert c[1..] == hex && d[1..] == Doubled(hex);
    assert forall k :: 1 <= k < |c| ==> c[k] == hex[k - 1];
    assert forall k :: 1 <= k < |d| ==> d[k] == hex[(k - 1) / 2];
  }

  // ---------------------------------------------------------------------------
  // Composition
  // ---------------------------------------------------------------------------

  lemma RoundOfInt(n: int)
    ensures (n as real).Floor == n && (n as real + 0.5).Floor == n
  {
  }

  lemma RoundIsWhole(x: Num)
    ensures Whole(x.Round()) && x.Round().Round() == x.Round()
  {
    if x.Fin? {
      RoundOfInt((x.r + 0.5).Floor);
    }
  }

  lemma ShiftedFloor(x: real, b: int)
    ensures (x - b as real).Floor == x.Floor - b
  {
  }

  /** The lightness after a step of x from l. */
  function Lowered(l: real, x: real): int {
    (MaxOf(0.0, l - x) + 0.5).Floor
  }

  /** Darkening the lightness l by a and then by b is darkening it by a + b. */
  predicate Composes(l: real, a: real, b: real) {
    Lowered(Lowered(l, a) as real, b) == Lowered(l, a + b)
  }

  lemma WholeStepComposes(l: real, a: real, b: nat)
    ensures Composes(l, a, b as real)
  {
    var x := l - a;
    var n := Lowered(l, a);
    ShiftedFloor(x + 0.5, b);
    assert x - b as real + 0.5 == x + 0.5 - b as real && l - (a + b as real) == x - b as real;
    assert (n - b) as real == n as real - b as real;
    RoundOfInt(n - b);
  }

  /** A lightness that tells the two apart when the second step is negative: one that the first
      step takes below 0, or that it rounds down just where the second would have lifted it. */
  lemma NegativeStepFails(a: real, b: real) returns (l: real)
    requires b < 0.0
    ensures !Composes(l, a, b)
  {
    l := a + if b <= -0.5 then b else 0.5 + b / 2.0;
    assert l - (a + b) == if b <= -0.5 then 0.0 else 0.5 - b / 2.0;
  }

  /** The same for a fractional second step f + n: the first rounding moves the lightness over
      the boundary at which the sum would be rounded. */
  lemma FractionalStepFails(a: real, b: real) returns (l: real)
    requires b >= 0.0 && b != b.Floor as real
    ensures !Composes(l, a, b)
  {
    var n := b.Floor + 1;
    var g := n as real - b;
    var x := n as real + (if g < 0.5 then 0.5 - g else -0.5);
    l := x + a;
    assert l - a == x && l - (a + b) == x - b;
    assert (x + 0.5).Floor == n;
    assert Lowered(n as real, b) == (if g < 0.5 then 0 else 1);
    assert Lowered(l, a + b) == (if g < 0.5 then 1 else 0);
  }

  /** The exact condition, whatever the first step: half-up rounding commutes with the second
      step for every lightness, also through the floor at 0, if and only if that step is a
      natural number. */
  lemma LightnessComposesIff(a: real, b: real)
    ensures (forall l: real :: Composes(l, a, b)) <==> b >= 0.0 && b == b.Floor as real
  {
    if b < 0.0 {
      var l := NegativeStepFails(a, b);
    } else if b != b.Floor as real {
      var l := FractionalStepFails(a, b);
    } else {
      forall l: real
        ensures Composes(l, a, b)
      {
        WholeStepComposes(l, a, b.Floor);
      }
    }
  }

  /** The same of any number that toHsl may return as a lightness. */
  predicate LightnessComposes(l: Num, a: real, b: real) {
    l.LowerBy(a).Round().LowerBy(b).Round() == l.LowerBy(a + b).Round()
  }

  lemma FiniteComposes(l: Num, a: real, b: real)
    ensures l.Fin? ==> (LightnessComposes(l, a, b) <==> Composes(l.r, a, b))
    ensures b >= 0.0 && b == b.Floor as real ==> LightnessComposes(l, a, b)
  {
    if l.Fin? {
      RoundOfInt(Lowered(l.r, a));
      LightnessComposesIff(a, b);
    } else if b >= 0.0 && b == b.Floor as real {
      LightnessComposesIff(a, b);
      assert Composes(0.0, 0.0, b);
    }
  }

  /** What darkening by a makes of a colour, read back. */
  lemma DarkenedReadsBack(show: real -> string, c: string, a: real) returns (d: Hsla)
    requires ToHsl(c).Some? && Shows(show, ToHsl(c).value.a)
    ensures ToHsl(DarkenText(show, c, a)) == Some(d)
    ensures var hsl := ToHsl(c).value;
            d.h == hsl.h.Round() && d.s == hsl.s.Round() && d.l == hsl.l.LowerBy(a).Round()
                && ShowAlpha(show, d.a) == ShowAlpha(show, hsl.a)
    ensures d.h.Round() == d.h && d.s.Round() == d.s
  {
    var hsl := ToHsl(c).value;
    RoundIsWhole(hsl.h);
    RoundIsWhole(hsl.s);
    RoundIsWhole(hsl.l.LowerBy(a));
    var back := PrintedParsesBack(show, hsl.h.Round(), hsl.s.Round(), hsl.l.LowerBy(a).Round(), hsl.a);
    d := Hsla(hsl.h.Round(), hsl.s.Round(), hsl.l.LowerBy(a).Round(), back);
  }

  /** The lightness a finite one is lowered to: the whole number nearest to the difference, the
      upper one of two, or 0 if the difference is negative. */
  lemma LoweredMeans(l: real, dL: real) returns (k: int)
    ensures Fin(l).LowerBy(dL).Round() == Fin(k as real)
    ensures l - dL >= 0.0 ==> -0.5 < k as real - (l - dL) <= 0.5
    ensures l - dL < 0.0 ==> k == 0
  {
    k := (MaxOf(0.0, l - dL) + 0.5).Floor;
  }

  /** Two printed colours are the same text only if they have the same lightness. */
  lemma PrintsApart(show: real -> string, h: Num, s: Num, k: Num, l: Num, a: Num)
    requires Whole(h) && Whole(s) && Whole(k) && Whole(l) && Shows(show, a)
             && Print(show, h, s, k, a) == Print(show, h, s, l, a)
    ensures k == l
  {
    var x := PrintedParsesBack(show, h, s, k, a);
    var y := PrintedParsesBack(show, h, s, l, a);
  }

  /** One leaf: two darkenings in a row are the sum of the steps if and only if it is no colour
      or they are so for its lightness. */
  lemma TextComposesIff(show: real -> string, c: string, a: real, b: real)
    requires ToHsl(c).Some? ==> Shows(show, ToHsl(c).value.a)
    ensures DarkenText(show, DarkenText(show, c, a), b) == DarkenText(show, c, a + b) <==>
            ToHsl(c).None? || LightnessComposes(ToHsl(c).value.l, a, b)
  {
    if ToHsl(c).Some? {
      var hsl := ToHsl(c).value;
      var d := DarkenedReadsBack(show, c, a);
      var k, l := d.l.LowerBy(b).Round(), hsl.l.LowerBy(a + b).Round();
      assert Print(show, d.h, d.s, k, d.a) == Print(show, d.h, d.s, k, hsl.a);
      RoundIsWhole(hsl.h);
      RoundIsWhole(hsl.s);
      RoundIsWhole(d.l.LowerBy(b));
      RoundIsWhole(hsl.l.LowerBy(a + b));
      if Print(show, d.h, d.s, k, hsl.a) == Print(show, d.h, d.s, l, hsl.a) {
        PrintsApart(show, d.h, d.s, k, l, hsl.a);
      }
    }
  }

  ghost predicate EveryColourComposes(e: Expr, a: real, b: real) {
    match e
    case Arr(items) => forall i :: 0 <= i < |items| ==> EveryColourComposes(items[i], a, b)
    case Str(text) => ToHsl(text).None? || LightnessComposes(ToHsl(text).value.l, a, b)
    case Other(_) => true
  }

  /** On every nested expression, darkening by a and then by b is darkening by a + b if and only
      if it is so for the lightness of every colour in it. */
  lemma {:induction false} DarkenComposesIff(show: real -> string, e: Expr, a: real, b: real)
    requires ShowsAlphas(show, e)
    ensures DarkenExpr(show, DarkenExpr(show, e, a), b) == DarkenExpr(show, e, a + b) <==> EveryColourComposes(e, a, b)
  {
    match e {
      case Arr(items) =>
        var twice, once := DarkenExpr(show, DarkenExpr(show, e, a), b), DarkenExpr(show, e, a + b);
        forall i | 0 <= i < |items|
          ensures twice.items[i] == once.items[i] <==> EveryColourComposes(items[i], a, b)
        {
          DarkenComposesIff(show, items[i], a, b);
        }
        assert twice == once <==> twice.items == once.items;
      case Str(text) =>
        TextComposesIff(show, text, a, b);
      case Other(_) =>
    }
  }

  lemma {:induction false} NaturalStepSuitsAll(e: Expr, a: real, b: real)
    requires b >= 0.0 && b == b.Floor as real
    ensures EveryColourComposes(e, a, b)
  {
    match e {
      case Arr(items) =>
        forall i | 0 <= i < |items|
          ensures EveryColourComposes(items[i], a, b)
        {
          NaturalStepSuitsAll(items[i], a, b);
        }
      case Str(text) =>
        if ToHsl(text).Some? {
          FiniteComposes(ToHsl(text).value.l, a, b);
        }
      case Other(_) =>
    }
  }

  /** Darkening by any amount and then by a natural number is darkening by their sum, on every
      nested expression. */
  lemma DarkenComposes(show: real -> string, e: Expr, a: real, b: real)
    requires ShowsAlphas(show, e) && b >= 0.0 && b == b.Floor as real
    ensures DarkenExpr(show, DarkenExpr(show, e, a), b) == DarkenExpr(show, e, a + b)
  {
    NaturalStepSuitsAll(e, a, b);
    DarkenComposesIff(show, e, a, b);
  }

  /** Same arrays of the same lengths, same leaves except for colours, and for a colour the same
      hue and saturation up to rounding, an alpha of the same text, and the lightness lowered. */
  ghost predicate SameButDarker(show: real -> string, e: Expr, f: Expr, dL: real) {
    match e
    case Arr(items) => f.Arr? && |f.items| == |items| && forall i :: 0 <= i < |items| ==>
        SameButDarker(show, items[i], f.items[i], dL)
    case Str(text) =>
      f.Str? &&
      (if ToHsl(text).None? then f.text == text
       else
         var (c, d) := (ToHsl(text).value, ToHsl(f.text));
         && d.Some? && ShowAlpha(show, d.value.a) == ShowAlpha(show, c.a)
         && d.value.h == c.h.Round() && d.value.s == c.s.Round() && d.value.l == c.l.LowerBy(dL).Round())
    case Other(_) => f == e
  }

  /** Darkening by any amount preserves shape, alpha and everything that is not a colour, and
      lowers every colour's lightness by that amount, not below 0. */
  lemma {:induction false} DarkenPreserves(show: real -> string, e: Expr, dL: real)
    requires ShowsAlphas(show, e)
    ensures SameButDarker(show, e, DarkenExpr(show, e, dL), dL)
  {
    match e {
      case Arr(items) =>
        forall i | 0 <= i < |items|
          ensures SameButDarker(show, items[i], DarkenExpr(show, items[i], dL), dL)
        {
          DarkenPreserves(show, items[i], dL);
        }
      case Str(text) =>
        if ToHsl(text).Some? {
          var d := DarkenedReadsBack(show, text, dL);
        }
      case Other(_) =>
    }
  }
}
