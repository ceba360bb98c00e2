/**
 * Command-line token parsers: `parse_pq` (src/cli/cli.cpp), which reads a
 * threshold written "p/q", and `_to_bool` and `_parse_size` (cli.hpp), which
 * read on/off switches and graph sizes "WxH" or "m:n".  Strings are
 * sequences of characters; the standard-library number readers are modelled
 * as follows:
 *
 *  - `std::from_chars` into a 64-bit unsigned value accepts a non-empty run
 *    of decimal digits whose value fits, and the run must cover the text;
 *  - `std::stoull` (base 10) skips leading white space, takes an optional
 *    sign and then the longest run of digits; it throws when there is no
 *    digit or the value does not fit, and a minus sign negates modulo 2^64.
 */
module Cli {
  import opened Basics
  import Threshold

  type u32 = Threshold.u32
  type u64 = Threshold.u64

  predicate IsDigit(c: char) {
    '0' <= c <= '9'
  }

  predicate AllDigits(s: string) {
    forall i :: 0 <= i < |s| ==> IsDigit(s[i])
  }

  /** The value of a string of decimal digits, most significant first. */
  function Decimal(s: string): nat
    requires AllDigits(s)
  {
    if |s| == 0 then 0 else Decimal(s[..|s| - 1]) * 10 + (s[|s| - 1] as int - '0' as int)
  }

  /** t is a non-empty decimal spelling of n (leading zeros allowed). */
  predicate Spells(t: string, n: nat) {
    |t| > 0 && AllDigits(t) && Decimal(t) == n
  }

  /** The shortest decimal spelling of n. */
  function Show(n: nat): (s: string)
    ensures |s| > 0 && AllDigits(s)
  {
    var d := ('0' as int + n % 10) as char;
    if n < 10 then [d] else Show(n / 10) + [d]
  }

  lemma {:induction false} ShowSpells(n: nat)
    ensures Spells(Show(n), n)
  {
    if n >= 10 {
      ShowSpells(n / 10);
      var s := Show(n);
      assert s[..|s| - 1] == Show(n / 10);
    }
  }

  /** `find(c)`: the first position of c, none when c does not occur. */
  function Find(s: string, c: char): (r: Option<nat>)
    ensures r.None? <==> c !in s
    ensures r.Some? ==> r.value < |s| && s[r.value] == c && c !in s[..r.value]
  {
    if |s| == 0 then None
    else if s[0] == c then Some(0)
    else
      match Find(s[1..], c)
      case None => None
      case Some(i) =>
        assert s[..i + 1] == [s[0]] + s[1..][..i];
        Some(i + 1)
  }

  /** `std::from_chars` into a 64-bit unsigned value that must consume the whole text. */
  function FromChars(s: string): (r: Option<u64>)
    ensures r.Some? ==> Spells(s, r.value)
  {
    if |s| > 0 && AllDigits(s) && Decimal(s) < Threshold.U64 then Some(Decimal(s)) else None
  }

  /**
   * `parse_pq(s)`: the text before the first '/' and the text after it must
   * both be decimal 64-bit values, and the denominator must not be zero.
   */
  function ParsePq(s: string): (r: Option<(u64, u64)>)
    ensures '/' !in s ==> r.None?
    ensures r.Some? ==> r.value.1 > 0
    ensures r.Some? ==> exists i :: 0 <= i < |s| && s[i] == '/' && Spells(s[..i], r.value.0) && Spells(s[i + 1..], r.value.1)
  {
    match Find(s, '/')
    case None => None
    case Some(pos) =>
      match (FromChars(s[..pos]), FromChars(s[pos + 1..]))
      case (Some(p), Some(q)) => if q == 0 then None else Some((p, q))
      case _ => None
  }

  /** Every text of the form a/b with decimal a and b is read as (a, b), unless a value overflows or b is zero. */
  lemma ParsePqComplete(a: string, b: string)
    requires |a| > 0 && AllDigits(a) && |b| > 0 && AllDigits(b)
    ensures ParsePq(a + "/" + b) ==
            if Decimal(a) < Threshold.U64 && 0 < Decimal(b) < Threshold.U64
            then Some((Decimal(a), Decimal(b))) else None
  {
    var s := a + "/" + b;
    assert s[|a|] == '/';
    assert '/' !in a;
    assert s[..|a|] == a && s[|a| + 1..] == b;
    assert '/' !in s[..|a|];
    assert Find(s, '/') == Some(|a|);
  }

  /** Printing p/q in decimal and reading it back gives (p, q), for every nonzero q. */
  lemma ParsePqRoundTrip(p: u64, q: u64)
    ensures ParsePq(Show(p) + "/" + Show(q)) == if q == 0 then None else Some((p, q))
  {
    ShowSpells(p);
    ShowSpells(q);
    ParsePqComplete(Show(p), Show(q));
  }

  /** `_lower_ascii`: `std::tolower` in the C locale changes only 'A'..'Z'. */
  function Lower(c: char): char {
    if 'A' <= c <= 'Z' then (c as int - 'A' as int + 'a' as int) as char else c
  }

  function LowerAll(s: string): (t: string)
    ensures |t| == |s| && forall i :: 0 <= i < |s| ==> t[i] == Lower(s[i])
  {
    seq(|s|, i requires 0 <= i < |s| => Lower(s[i]))
  }

  /** The spellings `_to_bool` accepts, after lowering. */
  const TrueWords: set<string> := {"1", "true", "yes", "y", "on"}
  const FalseWords: set<string> := {"0", "false", "no", "n", "off"}

  /**
   * `_to_bool(s, v)`: whether the token was recognised, and the value of v
   * afterwards; an unrecognised token leaves v as it was.
   */
  function ToBool(s: string, v: bool): (r: (bool, bool))
    ensures r.0 && r.1 <==> LowerAll(s) in TrueWords
    ensures r.0 && !r.1 <==> LowerAll(s) in FalseWords
    ensures !r.0 ==> r.1 == v
  {
    var t := LowerAll(s);
    if t in TrueWords then (true, true)
    else if t in FalseWords then (true, false)
    else (false, v)
  }

  /** Lowering twice is lowering once, so a token and its lowered form read the same. */
  lemma {:induction false} ToBoolIgnoresCase(s: string, v: bool)
    ensures ToBool(LowerAll(s), v) == ToBool(s, v)
  {
    assert LowerAll(LowerAll(s)) == LowerAll(s);
  }

  /** The help text's on/off switches, in any capitalisation, read as true and false. */
  lemma ToBoolReadsOnOff(s: string, v: bool)
    ensures LowerAll(s) == "on" ==> ToBool(s, v) == (true, true)
    ensures LowerAll(s) == "off" ==> ToBool(s, v) == (true, false)
  {
  }

  predicate IsSpace(c: char) {
    c == ' ' || c == '\t' || c == '\n' || c == '\U{B}' || c == '\U{C}' || c == '\r'
  }

  function SkipSpace(s: string): (t: string)
    ensures |t| <= |s| && t == s[|s| - |t|..]
    ensures |t| > 0 ==> !IsSpace(t[0])
  {
    if |s| > 0 && IsSpace(s[0]) then SkipSpace(s[1..]) else s
  }

  /** The length of the run of digits that starts s. */
  function DigitRun(s: string): (n: nat)
    ensures n <= |s| && AllDigits(s[..n]) && (n < |s| ==> !IsDigit(s[n]))
  {
    if |s| > 0 && IsDigit(s[0]) then
      var n := 1 + DigitRun(s[1..]);
      assert s[..n] == [s[0]] + s[1..][..n - 1];
      n
    else 0
  }

  lemma DigitRunAll(s: string)
    requires AllDigits(s)
    ensures DigitRun(s) == |s|
  {
  }

  /** `std::stoull(s)`: none when it throws. */
  function Stoull(s: string): (r: Option<u64>)
  {
    var t := SkipSpace(s);
    var signed := |t| > 0 && (t[0] == '-' || t[0] == '+');
    var body := if signed then t[1..] else t;
    var n := DigitRun(body);
    if n == 0 then None
    else
      var v := Decimal(body[..n]);
      if v >= Threshold.U64 then None
      else if signed && t[0] == '-' && v > 0 then Some(Threshold.U64 - v)
      else Some(v)
  }

  /** stoull reads back every decimal spelling of a 64-bit value. */
  lemma StoullReadsSpelling(t: string, n: u64)
    requires Spells(t, n)
    ensures Stoull(t) == Some(n)
  {
    assert SkipSpace(t) == t by {
      assert IsDigit(t[0]);
    }
    assert DigitRun(t) == |t| && t[..|t|] == t by {
      DigitRunAll(t);
    }
  }

  /** The separator `_parse_size` looks for: 'x' for a torus, ':' for a lollipop. */
  function Sep(isTorus: bool): char {
    if isTorus then 'x' else ':'
  }

  /** The size text with every 'X', 'x' and '+' turned into the separator. */
  function Normalize(s: string, isTorus: bool): (t: string)
    ensures |t| == |s|
    ensures forall i :: 0 <= i < |s| ==> t[i] == if s[i] in "Xx+" then Sep(isTorus) else s[i]
  {
    seq(|s|, i requires 0 <= i < |s| => if s[i] in "Xx+" then Sep(isTorus) else s[i])
  }

  /** The two numbers of a size text, before any narrowing. */
  datatype Parts = NoSeparator | Threw | Parts(x: u64, y: u64)

  /** Find the separator in the normalised text and stoull the text on either side. */
  function SizeParts(s: string, isTorus: bool): (r: Parts)
    ensures r.NoSeparator? <==> (forall i :: 0 <= i < |s| ==> s[i] !in "Xx+" && s[i] != Sep(isTorus))
  {
    var t := Normalize(s, isTorus);
    match Find(t, Sep(isTorus))
    case None => NoSeparator
    case Some(p) => PartsAt(t, p)
  }

  /** stoull on either side of position p. */
  function PartsAt(t: string, p: nat): (r: Parts)
    requires p < |t|
    ensures !r.NoSeparator?
  {
    match (Stoull(t[..p]), Stoull(t[p + 1..]))
    case (Some(x), Some(y)) => Parts(x, y)
    case _ => Threw
  }

  /** Normalising leaves digits alone and turns the one separator character into Sep. */
  lemma NormalizeDigits(a: string, c: char, b: string, isTorus: bool)
    requires AllDigits(a) && AllDigits(b)
    requires c in "Xx+" || c == Sep(isTorus)
    ensures Normalize(a + [c] + b, isTorus) == a + [Sep(isTorus)] + b
  {
    var s := a + [c] + b;
    var t := Normalize(s, isTorus);
    forall i | 0 <= i < |s| ensures t[i] == (a + [Sep(isTorus)] + b)[i] {
      if i < |a| {
        assert s[i] == a[i] && IsDigit(a[i]);
      } else if i > |a| {
        assert s[i] == b[i - |a| - 1] && IsDigit(b[i - |a| - 1]);
      }
    }
  }

  /** A size text made of two decimal spellings and one separator character splits into their values. */
  lemma SizePartsOfSpellings(a: string, c: char, b: string, x: u64, y: u64, isTorus: bool)
    requires Spells(a, x) && Spells(b, y)
    requires c in "Xx+" || c == Sep(isTorus)
    ensures SizeParts(a + [c] + b, isTorus) == Parts(x, y)
  {
    var t := Normalize(a + [c] + b, isTorus);
    NormalizeDigits(a, c, b, isTorus);
    assert Find(t, Sep(isTorus)) == Some(|a|) by {
      assert Sep(isTorus) !in a;
    }
    assert t[..|a|] == a && t[|a| + 1..] == b;
    StoullReadsSpelling(a, x);
    StoullReadsSpelling(b, y);
    SizePartsAt(a + [c] + b, isTorus, |a|, x, y);
  }

  lemma SizePartsAt(s: string, isTorus: bool, p: nat, x: u64, y: u64)
    requires Find(Normalize(s, isTorus), Sep(isTorus)) == Some(p)
    requires p < |s| && Stoull(Normalize(s, isTorus)[..p]) == Some(x) && Stoull(Normalize(s, isTorus)[p + 1..]) == Some(y)
    ensures SizeParts(s, isTorus) == Parts(x, y)
  {
  }

  /** What `_parse_size` leaves behind: its verdict and the two dimensions. */
  datatype SizeResult = SizeResult(ok: bool, a: u32, b: u32)

  /**
   * `_parse_size(s, a, b, is_torus)` as written: both values are cast to 32
   * bits, and the verdict is that both casts are positive.  None: stoull threw.
   */
  function ParseSizeAsWritten(s: string, isTorus: bool, a0: u32, b0: u32): (r: Option<SizeResult>)
    ensures SizeParts(s, isTorus).NoSeparator? ==> r == Some(SizeResult(false, a0, b0))
    ensures r.Some? && r.value.ok ==> r.value.a > 0 && r.value.b > 0
  {
    match SizeParts(s, isTorus)
    case NoSeparator => Some(SizeResult(false, a0, b0))
    case Threw => None
    case Parts(x, y) =>
      var a, b := x % Threshold.U32, y % Threshold.U32;
      Some(SizeResult(a > 0 && b > 0, a, b))
  }

  /**
   * A dimension of 2^32 + y passes as y: "4294967297x1" is accepted as a
   * 1 by 1 torus.
   */
  lemma AsWrittenAcceptsWrapped(x: u64, y: u64)
    requires 0 < y < Threshold.U32 && x == Threshold.U32 + y
    ensures ParseSizeAsWritten(Show(x) + "x" + Show(y), true, 0, 0) == Some(SizeResult(true, y, y))
  {
    assert SizeParts(Show(x) + "x" + Show(y), true) == Parts(x, y) by {
      ShowSpells(x);
      ShowSpells(y);
      SizePartsOfSpellings(Show(x), 'x', Show(y), x, y, true);
    }
    assert x % Threshold.U32 == y % Threshold.U32 == y by {
      DivModUnique(x, Threshold.U32, 1, y);
      DivModUnique(y, Threshold.U32, 0, y);
    }
  }

  /**
   * `_parse_size` with the verdict the code evidently means: both values
   * must be positive and fit in 32 bits.  The dimensions it stores are the
   * same as before.
   */
  function ParseSize(s: string, isTorus: bool, a0: u32, b0: u32): (r: Option<SizeResult>)
    ensures SizeParts(s, isTorus).NoSeparator? ==> r == Some(SizeResult(false, a0, b0))
    ensures r.Some? && r.value.ok ==> SizeParts(s, isTorus) == Parts(r.value.a, r.value.b) && r.value.a > 0 && r.value.b > 0
  {
    match SizeParts(s, isTorus)
    case NoSeparator => Some(SizeResult(false, a0, b0))
    case Threw => None
    case Parts(x, y) =>
      Threshold.ModBelow32(x);
      Threshold.ModBelow32(y);
      var a, b := x % Threshold.U32, y % Threshold.U32;
      Some(SizeResult(0 < x < Threshold.U32 && 0 < y < Threshold.U32, a, b))
  }

  /**
   * Printing two dimensions around any accepted separator and parsing them
   * back gives them again, and the verdict is that both are positive 32-bit
   * values.
   */
  lemma ParseSizeRoundTrip(x: u64, c: char, y: u64, isTorus: bool, a0: u32, b0: u32)
    requires c in "Xx+" || c == Sep(isTorus)
    ensures var r := ParseSize(Show(x) + [c] + Show(y), isTorus, a0, b0);
            && r.Some?
            && (r.value.ok <==> 0 < x < Threshold.U32 && 0 < y < Threshold.U32)
            && (r.value.ok ==> r.value.a == x && r.value.b == y)
  {
    ShowSpells(x);
    ShowSpells(y);
    SizePartsOfSpellings(Show(x), c, Show(y), x, y, isTorus);
  }
}
