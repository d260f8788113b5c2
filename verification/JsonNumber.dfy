/** The number scanner of src/json.c: a state machine over the run of number characters at the
    start of the text, and the language it accepts. */
module JsonNumber {

  predicate IsDigit(c: char) { '0' <= c <= '9' }

  predicate IsE(c: char) { c == 'e' || c == 'E' }

  predicate IsSign(c: char) { c == '+' || c == '-' }

  predicate IsNumberChar(c: char) { IsDigit(c) || c == '.' || IsE(c) || IsSign(c) }

  predicate IsMark(c: char) { c == '.' || IsE(c) }

  // ---- The language: -?(0|[1-9]d*)(.d+)?([eE][+-]?d+(.d+)?)? ----

  predicate AllDigits(t: string) { forall k :: 0 <= k < |t| ==> IsDigit(t[k]) }

  predicate Digits(t: string) { |t| > 0 && AllDigits(t) }

  predicate Unsigned(t: string) { t == "0" || (Digits(t) && t[0] != '0') }

  predicate Int(t: string) { Unsigned(t) || (|t| > 0 && t[0] == '-' && Unsigned(t[1..])) }

  predicate Fraction(t: string) { |t| == 0 || (t[0] == '.' && Digits(t[1..])) }

  /** Digits and an optional fraction, cut at `k`. */
  predicate Power(t: string, k: nat) { k <= |t| && Digits(t[..k]) && Fraction(t[k..]) }

  ghost predicate SignedPower(t: string)
  {
    || (exists k: nat :: Power(t, k))
    || (|t| > 0 && IsSign(t[0]) && exists k: nat :: Power(t[1..], k))
  }

  ghost predicate Exponent(t: string) { |t| == 0 || (IsE(t[0]) && SignedPower(t[1..])) }

  /** A number cut into its integer, its fraction and its exponent at `a` and `b`. */
  ghost predicate Cut(t: string, a: nat, b: nat)
  {
    a <= b <= |t| && Int(t[..a]) && Fraction(t[a..b]) && Exponent(t[b..])
  }

  ghost predicate Number(t: string) { exists a: nat, b: nat :: Cut(t, a, b) }

  /** The characters of a number, in numbers. */
  lemma NumberCharsAre(c: char)
    ensures IsDigit(c) <==> 48 <= c as int <= 57
    ensures IsE(c) <==> c as int == 69 || c as int == 101
    ensures IsSign(c) <==> c as int == 43 || c as int == 45
    ensures IsNumberChar(c) <==> IsDigit(c) || IsE(c) || IsSign(c) || c as int == 46
    ensures IsMark(c) <==> IsE(c) || c as int == 46
  {
  }

  // ---- The machine ----

  /** The states the source distinguishes, but for PN_E_LEADING_0, which it never enters. */
  datatype State =
    | Leading0 | Integer | Fractional | EInteger | EFractional
    | Invalid
    | InitialSign | Decimal | E | EInitialSign | EDecimal

  predicate Accepting(st: State) { st in {Leading0, Integer, Fractional, EInteger, EFractional} }

  /** The state after a number character; Invalid where the source gives up. */
  function Next(st: State, c: char): State
  {
    if IsDigit(c) then
      match st
      case Leading0 => Invalid
      case InitialSign => if c == '0' then Leading0 else Integer
      case Decimal => Fractional
      case E => EInteger
      case EInitialSign => EInteger
      case EDecimal => EFractional
      case _ => st
    else if c == '.' then
      match st
      case Integer => Decimal
      case Leading0 => Decimal
      case EInteger => EDecimal
      case _ => Invalid
    else if IsE(c) then if st in {Leading0, Integer, Fractional} then E else Invalid
    else if IsSign(c) then if st == E then EInitialSign else Invalid
    else Invalid
  }

  function Run(st: State, t: string): State
    decreases |t|
  {
    if t == [] then st else Run(Next(st, t[0]), t[1..])
  }

  lemma {:induction false} RunInvalid(t: string)
    ensures Run(Invalid, t) == Invalid
    decreases |t|
  {
    if t != [] {
      RunInvalid(t[1..]);
    }
  }

  predicate Accepts(st: State, t: string) { Accepting(Run(st, t)) }

  // ---- What each state still accepts ----

  lemma {:induction false} AcceptsEFractional(t: string)
    ensures Accepts(EFractional, t) <==> AllDigits(t)
    decreases |t|
  {
    if t != [] {
      if IsDigit(t[0]) {
        AcceptsEFractional(t[1..]);
      } else {
        RunInvalid(t[1..]);
      }
    }
  }

  lemma AcceptsEDecimal(t: string)
    ensures Accepts(EDecimal, t) <==> Digits(t)
  {
    if t != [] {
      if IsDigit(t[0]) {
        AcceptsEFractional(t[1..]);
      } else {
        RunInvalid(t[1..]);
      }
    }
  }

  /** More digits, then an optional fraction. */
  predicate MorePower(t: string, k: nat) { k <= |t| && AllDigits(t[..k]) && Fraction(t[k..]) }

  lemma ShiftSlice(t: string, k: nat)
    requires 0 < |t| && k < |t|
    ensures t[..k + 1] == [t[0]] + t[1..][..k] && t[k + 1..] == t[1..][k..]
  {
  }

  lemma DigitsCons(c: char, t: string)
    requires IsDigit(c)
    ensures AllDigits([c] + t) <==> AllDigits(t)
  {
    forall k | 0 <= k < |t| ensures ([c] + t)[k + 1] == t[k] {
    }
  }

  /** Where a prefix of digits starts, a digit is. */
  lemma DigitHead(t: string)
    ensures forall k :: 0 < k <= |t| && AllDigits(t[..k]) ==> IsDigit(t[0])
  {
    forall k | 0 < k <= |t| && AllDigits(t[..k]) ensures IsDigit(t[0]) {
      assert t[..k][0] == t[0];
    }
  }

  lemma {:induction false} AcceptsEInteger(t: string)
    ensures Accepts(EInteger, t) <==> exists k: nat :: MorePower(t, k)
    decreases |t|
  {
    if t == [] {
      assert MorePower(t, 0);
    } else if IsDigit(t[0]) {
      AcceptsEInteger(t[1..]);
      forall k: nat | k < |t| ensures MorePower(t[1..], k) <==> MorePower(t, k + 1) {
        ShiftSlice(t, k);
        DigitsCons(t[0], t[1..][..k]);
      }
      if k: nat :| MorePower(t, k) {
        assert k > 0 && MorePower(t[1..], k - 1);
      }
    } else {
      DigitHead(t);
      if t[0] == '.' {
        AcceptsEDecimal(t[1..]);
        assert MorePower(t, 0) <==> Fraction(t) by { assert t[0..] == t && t[..0] == []; }
      } else {
        RunInvalid(t[1..]);
        assert t[0..] == t;
      }
    }
  }

  lemma AcceptsEInitialSign(t: string)
    ensures Accepts(EInitialSign, t) <==> exists k: nat :: Power(t, k)
  {
    if t != [] && IsDigit(t[0]) {
      AcceptsEInteger(t[1..]);
      forall k: nat | k < |t| ensures MorePower(t[1..], k) <==> Power(t, k + 1) {
        ShiftSlice(t, k);
        DigitsCons(t[0], t[1..][..k]);
      }
      if k: nat :| Power(t, k) {
        assert k > 0 && MorePower(t[1..], k - 1);
      }
    } else {
      if t != [] { RunInvalid(t[1..]); }
      DigitHead(t);
    }
  }

  lemma AcceptsE(t: string)
    ensures Accepts(E, t) <==> SignedPower(t)
  {
    AcceptsEInitialSign(t);
    if t != [] {
      if IsSign(t[0]) {
        AcceptsEInitialSign(t[1..]);
        DigitHead(t);
      } else if !IsDigit(t[0]) {
        RunInvalid(t[1..]);
      }
    }
  }

  /** More digits, then an optional exponent. */
  ghost predicate MoreFraction(t: string, k: nat) { k <= |t| && AllDigits(t[..k]) && Exponent(t[k..]) }

  lemma {:induction false} AcceptsFractional(t: string)
    ensures Accepts(Fractional, t) <==> exists k: nat :: MoreFraction(t, k)
    decreases |t|
  {
    if t == [] {
      assert MoreFraction(t, 0);
    } else if IsDigit(t[0]) {
      AcceptsFractional(t[1..]);
      forall k: nat | k < |t| ensures MoreFraction(t[1..], k) <==> MoreFraction(t, k + 1) {
        ShiftSlice(t, k);
        DigitsCons(t[0], t[1..][..k]);
      }
      if k: nat :| MoreFraction(t, k) {
        assert k > 0 && MoreFraction(t[1..], k - 1);
      }
    } else {
      DigitHead(t);
      assert MoreFraction(t, 0) <==> Exponent(t) by { assert t[0..] == t && t[..0] == []; }
      if IsE(t[0]) {
        AcceptsE(t[1..]);
      } else {
        RunInvalid(t[1..]);
      }
    }
  }

  /** An optional fraction and an optional exponent, cut at `b`. */
  ghost predicate Rest(t: string, b: nat) { b <= |t| && Fraction(t[..b]) && Exponent(t[b..]) }

  lemma AcceptsDecimal(t: string)
    ensures Accepts(Decimal, t) <==> exists k: nat :: k > 0 && MoreFraction(t, k)
  {
    if t != [] && IsDigit(t[0]) {
      AcceptsFractional(t[1..]);
      forall k: nat | k < |t| ensures MoreFraction(t[1..], k) <==> MoreFraction(t, k + 1) {
        ShiftSlice(t, k);
        DigitsCons(t[0], t[1..][..k]);
      }
      if k: nat :| k > 0 && MoreFraction(t, k) {
        assert MoreFraction(t[1..], k - 1);
      }
    } else {
      if t != [] { RunInvalid(t[1..]); }
      DigitHead(t);
    }
  }

  /** After a leading zero: no more digits, only what may follow an integer. */
  lemma AcceptsLeading0(t: string)
    ensures Accepts(Leading0, t) <==> exists b: nat :: Rest(t, b)
  {
    assert t[0..] == t && t[..0] == [];
    if t == [] {
      assert Rest(t, 0);
    } else if t[0] == '.' {
      AcceptsDecimal(t[1..]);
      forall k: nat | k < |t| && k > 0 ensures MoreFraction(t[1..], k) <==> Rest(t, k + 1) {
        ShiftSlice(t, k);
      }
      if b: nat :| Rest(t, b) {
        assert b > 1;
        assert MoreFraction(t[1..], b - 1);
      }
    } else {
      forall b: nat | 0 < b <= |t| ensures !Fraction(t[..b]) {
        assert t[..b][0] == t[0];
      }
      assert Rest(t, 0) <==> Exponent(t);
      if IsE(t[0]) {
        AcceptsE(t[1..]);
      } else {
        RunInvalid(t[1..]);
      }
    }
  }

  /** More digits, then what may follow an integer. */
  ghost predicate MoreInteger(t: string, a: nat) { a <= |t| && AllDigits(t[..a]) && exists b: nat :: Rest(t[a..], b) }

  lemma {:induction false} AcceptsInteger(t: string)
    ensures Accepts(Integer, t) <==> exists a: nat :: MoreInteger(t, a)
    decreases |t|
  {
    assert t[0..] == t && t[..0] == [];
    if t == [] {
      assert Rest(t[0..], 0) && MoreInteger(t, 0);
    } else if IsDigit(t[0]) {
      AcceptsInteger(t[1..]);
      forall k: nat | k < |t| ensures MoreInteger(t[1..], k) <==> MoreInteger(t, k + 1) {
        ShiftSlice(t, k);
        DigitsCons(t[0], t[1..][..k]);
      }
      forall b: nat | b <= |t| ensures !Rest(t, b) {
        if b > 0 { assert t[..b][0] == t[0]; }
      }
      if k: nat :| MoreInteger(t, k) {
        assert k > 0 && MoreInteger(t[1..], k - 1);
      }
    } else {
      AcceptsLeading0(t);
      assert Next(Integer, t[0]) == Next(Leading0, t[0]);
      DigitHead(t);
      assert MoreInteger(t, 0) <==> exists b: nat :: Rest(t, b);
    }
  }

  // ---- The whole number ----

  function Start(c: char): State
  {
    if c == '-' then InitialSign else if c == '0' then Leading0 else Integer
  }

  /** An integer without its sign, then what may follow it. */
  ghost predicate UnsignedThen(t: string, a: nat) { a <= |t| && Unsigned(t[..a]) && exists b: nat :: Rest(t[a..], b) }

  lemma ZeroThen(t: string, a: nat)
    requires |t| > 0 && t[0] == '0'
    ensures UnsignedThen(t, a) <==> a == 1 && exists b: nat :: Rest(t[1..], b)
  {
    assert t[..1] == "0";
    if a <= |t| && Unsigned(t[..a]) {
      assert t[..a][0] == '0';
    }
  }

  lemma DigitThen(t: string, k: nat)
    requires 0 < |t| && k < |t| && IsDigit(t[0]) && t[0] != '0'
    ensures UnsignedThen(t, k + 1) <==> MoreInteger(t[1..], k)
  {
    ShiftSlice(t, k);
    DigitsCons(t[0], t[1..][..k]);
    assert t[..k + 1][0] == t[0];
  }

  lemma AcceptsZero(t: string)
    requires |t| > 0 && t[0] == '0'
    ensures Accepts(Leading0, t[1..]) <==> exists a: nat :: UnsignedThen(t, a)
  {
    AcceptsLeading0(t[1..]);
    ZeroThen(t, 1);
    if a: nat :| UnsignedThen(t, a) {
      ZeroThen(t, a);
    }
  }

  lemma AcceptsDigit(t: string)
    requires |t| > 0 && IsDigit(t[0]) && t[0] != '0'
    ensures Accepts(Integer, t[1..]) <==> exists a: nat :: UnsignedThen(t, a)
  {
    AcceptsInteger(t[1..]);
    if a: nat :| UnsignedThen(t, a) {
      DigitThen(t, a - 1);
    }
    if k: nat :| MoreInteger(t[1..], k) {
      DigitThen(t, k);
    }
  }

  lemma AcceptsUnsigned(t: string)
    requires |t| > 0 && IsDigit(t[0])
    ensures Accepts(Next(InitialSign, t[0]), t[1..]) <==> exists a: nat :: UnsignedThen(t, a)
  {
    if t[0] == '0' { AcceptsZero(t); } else { AcceptsDigit(t); }
  }

  lemma CutUnsigned(t: string, a: nat, b: nat)
    requires |t| > 0 && t[0] != '-' && a <= b <= |t|
    ensures Cut(t, a, b) <==> Unsigned(t[..a]) && Rest(t[a..], b - a)
  {
    assert t[a..][..b - a] == t[a..b] && t[a..][b - a..] == t[b..];
    if a > 0 { assert t[..a][0] == t[0]; }
  }

  lemma CutToUnsigned(t: string, a: nat, b: nat)
    requires |t| > 0 && t[0] != '-' && Cut(t, a, b)
    ensures UnsignedThen(t, a)
  {
    CutUnsigned(t, a, b);
    assert Rest(t[a..], b - a);
  }

  lemma UnsignedToNumber(t: string, a: nat)
    requires |t| > 0 && t[0] != '-' && UnsignedThen(t, a)
    ensures Number(t)
  {
    var b: nat :| Rest(t[a..], b);
    CutUnsigned(t, a, a + b);
    assert Cut(t, a, a + b);
  }

  lemma CutNegative(t: string, a: nat, b: nat)
    requires |t| > 0 && t[0] == '-' && a <= b < |t|
    ensures Cut(t, a + 1, b + 1) <==> Unsigned(t[1..][..a]) && Rest(t[1..][a..], b - a)
  {
    var u, head := t[1..], t[..a + 1];
    assert head[1..] == u[..a] && head[0] == '-';
    assert u[a..][..b - a] == t[a + 1..b + 1] && u[a..][b - a..] == t[b + 1..];
  }

  lemma CutToNegative(t: string, a: nat, b: nat)
    requires |t| > 0 && t[0] == '-' && Cut(t, a, b)
    ensures a > 0 && UnsignedThen(t[1..], a - 1)
  {
    assert a > 0;
    CutNegative(t, a - 1, b - 1);
    assert Rest(t[1..][a - 1..], b - a);
  }

  lemma NegativeToNumber(t: string, u: string, a: nat, b: nat)
    requires |t| > 0 && t[0] == '-' && u == t[1..] && a <= |u| && Unsigned(u[..a]) && Rest(u[a..], b)
    ensures Number(t)
  {
    CutNegative(t, a, a + b);
    assert Cut(t, a + 1, a + b + 1);
  }

  lemma NumberIs(t: string, u: string)
    requires |t| > 0 && u == if t[0] == '-' then t[1..] else t
    ensures Number(t) <==> exists a: nat :: UnsignedThen(u, a)
  {
    if Number(t) {
      var a: nat, b: nat :| Cut(t, a, b);
      if t[0] == '-' { CutToNegative(t, a, b); } else { CutToUnsigned(t, a, b); }
    } else if a: nat :| UnsignedThen(u, a) {
      if t[0] == '-' {
        var b: nat :| Rest(u[a..], b);
        NegativeToNumber(t, u, a, b);
      } else { UnsignedToNumber(t, a); }
    }
  }

  /** The machine accepts exactly the numbers. */
  lemma AcceptsNumber(t: string)
    requires |t| > 0 && (IsDigit(t[0]) || t[0] == '-')
    ensures Accepts(Start(t[0]), t[1..]) <==> Number(t)
  {
    if t[0] == '-' {
      var u := t[1..];
      NumberIs(t, u);
      if u != [] && IsDigit(u[0]) {
        AcceptsUnsigned(u);
      } else {
        if u != [] { RunInvalid(u[1..]); }
        DigitHead(u);
      }
    } else {
      NumberIs(t, t);
      AcceptsUnsigned(t);
    }
  }

  // ---- The scanner ----

  lemma OneIsNumber()
    ensures Number("1")
  {
    assert Cut("1", 1, 1);
  }

  /** No number of RFC 8259, but one here: a fraction behind the digits of an exponent. */
  lemma FractionalExponentIsNumber()
    ensures Number("1e2.5")
  {
    var t := "1e2.5";
    assert t[1..][1..] == "2.5" && "2.5"[..1] == "2" && "2.5"[1..] == ".5" && ".5"[1..] == "5";
    assert Power("2.5", 1);
    assert t[..1] == "1" && t[1..1] == [] && Cut(t, 1, 1);
  }

  /** No number starts with a zero and another digit behind it. */
  lemma NoLeadingZero(t: string)
    requires |t| > 1 && t[0] == '0' && '0' <= t[1] <= '9'
    ensures !Number(t) && !Number("-" + t)
  {
    AcceptsNumber(t);
    RunInvalid(t[1..][1..]);
    AcceptsNumber("-" + t);
    assert ("-" + t)[1..] == t;
  }

  /** Digits without one are a number, and so they are behind a minus. */
  lemma DigitsAreNumber(t: string)
    requires t != [] && t[0] != '0' && forall k :: 0 <= k < |t| ==> '0' <= t[k] <= '9'
    ensures Number(t) && Number("-" + t)
  {
    var n := |t|;
    assert t[..n] == t && t[n..n] == [] && t[n..] == [];
    assert Cut(t, n, n);
    var m := "-" + t;
    assert m[1..] == t && m[..n + 1] == m && m[n + 1..n + 1] == [] && m[n + 1..] == [];
    assert Cut(m, n + 1, n + 1);
  }

  /** The end of the run of number characters at `i`. */
  function RunEnd(s: string, i: nat): (e: nat)
    requires i <= |s|
    ensures i <= e <= |s|
    ensures forall k :: i <= k < e ==> IsNumberChar(s[k])
    ensures e < |s| ==> !IsNumberChar(s[e])
    decreases |s| - i
  {
    if i < |s| && IsNumberChar(s[i]) then RunEnd(s, i + 1) else i
  }

  /** The run starting with the character at `i`. */
  function NumberText(s: string, i: nat): string
    requires i < |s|
  {
    s[i..RunEnd(s, i + 1)]
  }

  lemma {:induction false} RunConcat(st: State, a: string, b: string)
    ensures Run(st, a + b) == Run(Run(st, a), b)
    decreases |a|
  {
    if a == [] {
      assert a + b == b;
    } else {
      RunConcat(Next(st, a[0]), a[1..], b);
      assert (a + b)[1..] == a[1..] + b;
    }
  }

  lemma RunSnoc(st: State, s: string, i: nat, k: nat)
    requires i <= k < |s|
    ensures Run(st, s[i..k + 1]) == Next(Run(st, s[i..k]), s[k])
  {
    RunConcat(st, s[i..k], [s[k]]);
    assert s[i..k + 1] == s[i..k] + [s[k]] && [s[k]][1..] == [];
  }

  lemma RunGivenUp(st: State, s: string, i: nat, k: nat, e: nat)
    requires i <= k <= e <= |s| && Run(st, s[i..k]) == Invalid
    ensures Run(st, s[i..e]) == Invalid
  {
    RunConcat(st, s[i..k], s[k..e]);
    RunInvalid(s[k..e]);
    assert s[i..e] == s[i..k] + s[k..e];
  }

  lemma {:induction false} RunEndThrough(s: string, i: nat, k: nat)
    requires i <= k <= |s| && forall j :: i <= j < k ==> IsNumberChar(s[j])
    ensures RunEnd(s, i) == RunEnd(s, k)
    decreases k - i
  {
    if i < k {
      RunEndThrough(s, i + 1, k);
    }
  }

  /** Where the run ends, or already where the machine gives up, its state tells. */
  lemma ScanDecides(s: string, start: nat, end: nat, st: State)
    requires start < end <= |s| && (IsDigit(s[start]) || s[start] == '-')
    requires forall k :: start < k < end ==> IsNumberChar(s[k])
    requires st == Run(Start(s[start]), s[start + 1..end])
    requires st == Invalid || end == |s| || !IsNumberChar(s[end])
    ensures Accepting(st) <==> Number(NumberText(s, start))
    ensures st != Invalid ==> end == RunEnd(s, start + 1)
  {
    RunEndThrough(s, start + 1, end);
    var e, t := RunEnd(s, start + 1), NumberText(s, start);
    assert t[0] == s[start] && t[1..] == s[start + 1..e];
    AcceptsNumber(t);
    if st == Invalid {
      RunGivenUp(Start(s[start]), s, start + 1, end, e);
    }
  }

  /** privateParseNumber, at a digit or a sign: succeeds exactly when the whole run is a number,
      and calls it a float exactly when it holds a point or an exponent. */
  method ParseNumber(s: string, start: nat) returns (ok: bool, float: bool, end: nat)
    requires start < |s| && (IsDigit(s[start]) || s[start] == '-')
    ensures ok <==> Number(NumberText(s, start))
    ensures ok ==> end == RunEnd(s, start + 1)
    ensures ok ==> (float <==> exists k :: start <= k < end && IsMark(s[k]))
  {
    var st := if s[start] == '-' then InitialSign else if s[start] == '0' then Leading0 else Integer;
    ghost var first := st;
    float := false;
    end := start + 1;
    var more := true;
    while more && end < |s| && IsNumberChar(s[end])
      invariant start < end <= |s|
      invariant forall k :: start < k < end ==> IsNumberChar(s[k])
      invariant st == Run(first, s[start + 1..end])
      invariant !more ==> st == Invalid
      invariant float <==> exists k :: start <= k < end && IsMark(s[k])
      decreases more, |s| - end
    {
      RunSnoc(first, s, start + 1, end);
      st := Next(st, s[end]);
      float := float || IsMark(s[end]);
      end := end + 1;
      more := st != Invalid;
    }
    ScanDecides(s, start, end, st);
    ok := Accepting(st);
  }
}
