/**
 * The string operations the engine-output reader relies on: Rust's
 * `str::starts_with`, `str::split` on a single character, and
 * `str::parse::<i32>` (with decimal formatting as its partner).
 */
module Text {
  import opened Wrappers
  import opened Int32

  /** `s.starts_with(p)`. */
  predicate StartsWith(s: string, p: string) {
    |p| <= |s| && s[..|p|] == p
  }

  /** A string starts with `p` exactly when it is `p` followed by something. */
  lemma StartsWithPrefix(s: string, p: string)
    ensures StartsWith(s, p) <==> exists t :: s == p + t
  {
    if StartsWith(s, p) {
      assert s == p + s[|p|..];
    }
    if exists t :: s == p + t {
      var t :| s == p + t;
      assert s[..|p|] == p;
    }
  }

  /**
   * The pieces of `s` between occurrences of `sep`, as `s.split(sep)` yields
   * them: adjacent separators give empty pieces, and `""` gives `[""]`.
   */
  function Split(s: string, sep: char): (r: seq<string>)
    ensures |r| >= 1
    ensures forall k :: 0 <= k < |r| ==> sep !in r[k]
    decreases |s|
  {
    if s == [] then [""]
    else
      var rest := Split(s[1..], sep);
      if s[0] == sep then [""] + rest
      else [[s[0]] + rest[0]] + rest[1..]
  }

  /** The pieces put back together, one `sep` between neighbours. */
  function Join(pieces: seq<string>, sep: char): string
    requires |pieces| >= 1
    decreases |pieces|
  {
    if |pieces| == 1 then pieces[0] else pieces[0] + [sep] + Join(pieces[1..], sep)
  }

  /** Splitting loses nothing: joining the pieces rebuilds the string. */
  lemma {:induction false} JoinSplit(s: string, sep: char)
    ensures Join(Split(s, sep), sep) == s
    decreases |s|
  {
    if s != [] {
      var rest := Split(s[1..], sep);
      JoinSplit(s[1..], sep);
      if s[0] == sep {
        assert Split(s, sep)[1..] == rest;
      } else if |rest| == 1 {
        assert Split(s, sep) == [[s[0]] + rest[0]];
      } else {
        var r := Split(s, sep);
        assert r[0] == [s[0]] + rest[0] && r[1..] == rest[1..];
        assert Join(rest, sep) == rest[0] + [sep] + Join(rest[1..], sep);
        assert s == [s[0]] + s[1..];
      }
    }
  }

  /** A string without the separator is a single piece. */
  lemma {:induction false} SplitWithoutSep(s: string, sep: char)
    requires sep !in s
    ensures Split(s, sep) == [s]
    decreases |s|
  {
    if s != [] {
      assert s[0] != sep;
      SplitWithoutSep(s[1..], sep);
      assert s == [s[0]] + s[1..];
    }
  }

  /** A separator splits the pieces of what comes before it from those of what comes after. */
  lemma {:induction false} SplitAround(a: string, b: string, sep: char)
    ensures Split(a + [sep] + b, sep) == Split(a, sep) + Split(b, sep)
    decreases |a|
  {
    var s := a + [sep] + b;
    if a == [] {
      assert s[1..] == b;
    } else {
      assert s[1..] == a[1..] + [sep] + b;
      SplitAround(a[1..], b, sep);
    }
  }

  /** Splitting undoes joining when no piece holds the separator. */
  lemma {:induction false} SplitJoin(pieces: seq<string>, sep: char)
    requires |pieces| >= 1
    requires forall k :: 0 <= k < |pieces| ==> sep !in pieces[k]
    ensures Split(Join(pieces, sep), sep) == pieces
    decreases |pieces|
  {
    SplitWithoutSep(pieces[0], sep);
    if |pieces| > 1 {
      var tail := pieces[1..];
      assert forall k :: 0 <= k < |tail| ==> tail[k] == pieces[k + 1];
      SplitJoin(tail, sep);
      assert Join(pieces, sep) == pieces[0] + [sep] + Join(tail, sep);
      SplitAround(pieces[0], Join(tail, sep), sep);
      assert pieces == [pieces[0]] + tail;
    }
  }

  predicate IsDigit(c: char) {
    '0' <= c <= '9'
  }

  predicate AllDigits(s: string) {
    forall k :: 0 <= k < |s| ==> IsDigit(s[k])
  }

  function DigitValue(c: char): (d: nat)
    requires IsDigit(c)
    ensures d < 10
  {
    (c as int) - ('0' as int)
  }

  function DigitChar(d: nat): (c: char)
    requires d < 10
    ensures IsDigit(c) && DigitValue(c) == d
  {
    (('0' as int) + d) as char
  }

  /** The value of a string of decimal digits, most significant first. */
  function DigitsValue(s: string): nat
    requires AllDigits(s)
    decreases |s|
  {
    if s == [] then 0 else DigitsValue(s[..|s| - 1]) * 10 + DigitValue(s[|s| - 1])
  }

  /** The shortest decimal spelling of `n`. */
  function Decimal(n: nat): (r: string)
    ensures |r| >= 1 && AllDigits(r)
  {
    if n < 10 then [DigitChar(n)] else Decimal(n / 10) + [DigitChar(n % 10)]
  }

  lemma {:induction false} DecimalValue(n: nat)
    ensures DigitsValue(Decimal(n)) == n
  {
    var r := Decimal(n);
    if n < 10 {
      assert r[..|r| - 1] == [];
    } else {
      assert r[..|r| - 1] == Decimal(n / 10);
      DecimalValue(n / 10);
    }
  }

  /** How `i32`'s `Display` writes `n`: a minus sign for negatives, no plus sign. */
  function FormatI32(n: int): string {
    if n < 0 then "-" + Decimal(-n) else Decimal(n)
  }

  /**
   * `s.parse::<i32>()`: an optional `+` or `-` followed by at least one ASCII
   * digit and nothing else, whose value fits in `i32`. Every failure
   * (empty input, a lone sign, a stray character such as a space or a
   * newline, overflow) is `None`.
   */
  function ParseI32(s: string): (r: Option<int>)
    ensures r.Some? ==> InRange(r.value)
    ensures r.Some? ==> forall k :: 0 <= k < |s| ==> IsDigit(s[k]) || (k == 0 && (s[k] == '+' || s[k] == '-'))
  {
    if |s| == 0 then None
    else if s[0] == '+' then ParseDigits(false, s[1..])
    else if s[0] == '-' then ParseDigits(true, s[1..])
    else ParseDigits(false, s)
  }

  /** The digits after the sign: at least one, all ASCII digits, and the signed value in range. */
  function ParseDigits(negative: bool, digits: string): (r: Option<int>)
    ensures r.Some? ==> |digits| >= 1 && AllDigits(digits)
  {
    if |digits| == 0 || !AllDigits(digits) then None
    else OptionIfInRange(if negative then -(DigitsValue(digits) as int) else DigitsValue(digits))
  }

  /** Parsing gives back every `i32` from its decimal form, and rejects the decimal form of every other integer. */
  lemma ParseFormat(n: int)
    ensures ParseI32(FormatI32(n)) == if InRange(n) then Some(n) else None
  {
    var s := FormatI32(n);
    if n < 0 {
      DecimalValue(-n);
      assert s[1..] == Decimal(-n);
    } else {
      DecimalValue(n);
      assert IsDigit(s[0]);
    }
  }

  /*
   * The value of every accepted spelling: at least one digit, leading zeros
   * allowed (`007`), bare or after `+` or `-` (`+5`, `-0`), parses to the
   * signed value of the digits when it is in range, and fails otherwise.
   */

  lemma ParseUnsigned(digits: string)
    requires |digits| >= 1 && AllDigits(digits)
    ensures ParseI32(digits) == OptionIfInRange(DigitsValue(digits))
  {
    assert IsDigit(digits[0]);
  }

  lemma ParsePlus(digits: string)
    requires |digits| >= 1 && AllDigits(digits)
    ensures ParseI32(['+'] + digits) == OptionIfInRange(DigitsValue(digits))
  {
    ParseAfterSign('+', digits);
  }

  lemma ParseMinus(digits: string)
    requires |digits| >= 1 && AllDigits(digits)
    ensures ParseI32(['-'] + digits) == OptionIfInRange(-(DigitsValue(digits) as int))
  {
    ParseAfterSign('-', digits);
  }

  /** After a sign, the rest of the token is read as digits. */
  lemma ParseAfterSign(sign: char, digits: string)
    requires sign == '+' || sign == '-'
    ensures ParseI32([sign] + digits) == ParseDigits(sign == '-', digits)
  {
    assert ([sign] + digits)[1..] == digits;
  }

  /** `Some(v)` for an `i32` value, `None` for any other integer. */
  function OptionIfInRange(v: int): Option<int> {
    if InRange(v) then Some(v) else None
  }

  /** Leading zeros do not change the value of a digit string. */
  lemma {:induction false} LeadingZero(digits: string)
    requires AllDigits(digits)
    ensures AllDigits("0" + digits) && DigitsValue("0" + digits) == DigitsValue(digits)
    decreases |digits|
  {
    var s := "0" + digits;
    if digits != [] {
      assert s[..|s| - 1] == "0" + digits[..|digits| - 1];
      LeadingZero(digits[..|digits| - 1]);
    }
  }

  /** A token that still carries the reader's newline never parses. */
  lemma ParseRejectsNewline(s: string)
    ensures ParseI32(s + "\n") == None
  {
    var t := s + "\n";
    assert t[|t| - 1] == '\n';
  }
}
