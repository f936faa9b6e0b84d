/**
 * Models of the external helpers the filter-spec parser calls:
 * `strbuf_split_str` (strbuf.c), `url_percent_decode` (url.c) and
 * `git_parse_ulong` (config.c), plus the `%lu` rendering used by the
 * canonical expander. Those files are not part of this model; each helper
 * is given a small concrete definition with the facts the parser relies on
 * proved about it.
 */
module Helpers {
  import opened Wrappers

  // ---------------------------------------------------------------------
  // Splitting on a terminator (strbuf_split_str with no piece limit)
  // ---------------------------------------------------------------------

  /** Position of the first `c` in `s`, or `|s|` when `s` has none. */
  function IndexOf(s: string, c: char): (k: nat)
    ensures k <= |s|
    ensures k < |s| ==> s[k] == c
    ensures forall j :: 0 <= j < k ==> s[j] != c
  {
    if s == [] then 0
    else if s[0] == c then 0
    else 1 + IndexOf(s[1..], c)
  }

  /** The pieces glued back together. */
  function Concat(pieces: seq<string>): string {
    if pieces == [] then [] else pieces[0] + Concat(pieces[1..])
  }

  /**
   * Cuts `s` after every occurrence of `t`. Every piece keeps its
   * terminator, so the pieces concatenate back to `s`; only the last piece
   * can lack one, and an empty `s` gives no pieces at all.
   */
  function Split(s: string, t: char): (pieces: seq<string>)
    ensures Concat(pieces) == s
    ensures |pieces| == 0 <==> |s| == 0
    ensures Terminated(pieces, t, |s|)
    decreases |s|
  {
    if s == [] then []
    else
      var k := IndexOf(s, t);
      if k < |s| then
        var rest := Split(s[k + 1..], t);
        SplitCons(s, t, k, rest);
        [s[..k + 1]] + rest
      else
        assert [s][1..] == [];
        [s]
  }

  /**
   * Pieces as the splitter leaves them: none empty or longer than `bound`,
   * each but the last ending in `t`, and no `t` before a piece's last character.
   */
  predicate Terminated(pieces: seq<string>, t: char, bound: nat) {
    && (forall i :: 0 <= i < |pieces| ==> 0 < |pieces[i]| <= bound)
    && (forall i :: 0 <= i < |pieces| - 1 ==> pieces[i][|pieces[i]| - 1] == t)
    && (forall i, j :: 0 <= i < |pieces| && 0 <= j < |pieces[i]| - 1 ==> pieces[i][j] != t)
  }

  /** The piece up to the first separator, put in front of the split of what follows it. */
  lemma SplitCons(s: string, t: char, k: nat, rest: seq<string>)
    requires k < |s| && s[k] == t && forall j :: 0 <= j < k ==> s[j] != t
    requires Concat(rest) == s[k + 1..]
    requires Terminated(rest, t, |s| - k - 1)
    ensures Concat([s[..k + 1]] + rest) == s && Terminated([s[..k + 1]] + rest, t, |s|)
  {
    var pieces := [s[..k + 1]] + rest;
    assert pieces[1..] == rest;
    assert s[..k + 1] + s[k + 1..] == s;
    forall i | 1 <= i < |pieces|
      ensures pieces[i] == rest[i - 1]
    {
    }
  }

  // ---------------------------------------------------------------------
  // Percent-decoding (url_percent_decode, in the style of RFC 3986
  // section 2.1; '+' is not turned into a space)
  // ---------------------------------------------------------------------

  predicate IsHexDigit(c: char) {
    '0' <= c <= '9' || 'a' <= c <= 'f' || 'A' <= c <= 'F'
  }

  function HexValue(c: char): (v: nat)
    requires IsHexDigit(c)
    ensures v < 16
  {
    if '0' <= c <= '9' then c as int - '0' as int
    else if 'a' <= c <= 'f' then c as int - 'a' as int + 10
    else c as int - 'A' as int + 10
  }

  /** True when `s` starts with a `%HH` escape. */
  predicate StartsWithEscape(s: string) {
    3 <= |s| && s[0] == '%' && IsHexDigit(s[1]) && IsHexDigit(s[2])
  }

  /** The byte a `%HH` escape at the start of `s` names. */
  function EscapedByte(s: string): (b: nat)
    requires StartsWithEscape(s)
    ensures b < 256
  {
    HexValue(s[1]) * 16 + HexValue(s[2])
  }

  /**
   * The text the parser reads after decoding: every `%HH` escape becomes
   * the byte it names and every other character, including a `%` that
   * does not start an escape, is copied. An escape naming NUL ends the
   * text, as the NUL then ends the C string.
   */
  function Decode(s: string): (r: string)
    ensures |r| <= |s|
    ensures '%' !in s ==> r == s
    ensures '\0' !in s ==> '\0' !in r
    decreases |s|
  {
    if s == [] then []
    else if StartsWithEscape(s) then
      if EscapedByte(s) == 0 then [] else [EscapedByte(s) as char] + Decode(s[3..])
    else
      [s[0]] + Decode(s[1..])
  }

  /** Text without escapes passes through decoding, and decoding carries on after it. */
  lemma {:induction false} DecodePlainPrefix(p: string, rest: string)
    requires '%' !in p
    ensures Decode(p + rest) == p + Decode(rest)
    decreases |p|
  {
    if p != [] {
      assert (p + rest)[0] == p[0];
      assert !StartsWithEscape(p + rest);
      assert (p + rest)[1..] == p[1..] + rest;
      DecodePlainPrefix(p[1..], rest);
      assert Decode(p + rest) == [p[0]] + Decode(p[1..] + rest);
      assert p == [p[0]] + p[1..];
    } else {
      assert p + rest == rest;
    }
  }

  // ---------------------------------------------------------------------
  // Unsigned numbers (git_parse_ulong) and their %lu rendering
  // ---------------------------------------------------------------------

  /** The largest `unsigned long` on an LP64 platform. */
  const ULONG_MAX: nat := 0xFFFF_FFFF_FFFF_FFFF

  predicate IsDigit(c: char) { '0' <= c <= '9' }

  predicate AllDigits(s: string) { forall i :: 0 <= i < |s| ==> IsDigit(s[i]) }

  function DigitChar(d: nat): (c: char)
    requires d < 10
    ensures IsDigit(c) && c as int - '0' as int == d
  {
    ('0' as int + d) as char
  }

  /** The value of a string of decimal digits, most significant first. */
  function DecimalValue(s: string): nat
    requires AllDigits(s)
  {
    if s == [] then 0
    else DecimalValue(s[..|s| - 1]) * 10 + (s[|s| - 1] as int - '0' as int)
  }

  /** The binary multiplier a unit suffix stands for, 0 for a non-unit. */
  function UnitFactor(c: char): nat {
    if c == 'k' || c == 'K' then 1024
    else if c == 'm' || c == 'M' then 1024 * 1024
    else if c == 'g' || c == 'G' then 1024 * 1024 * 1024
    else 0
  }

  /**
   * Reads a non-empty run of decimal digits optionally followed by one of
   * the unit suffixes k, m, g (either case), refusing values that do not
   * fit an `unsigned long`.
   */
  function ParseUlong(s: string): (r: Option<nat>)
    ensures r.Some? ==> r.value <= ULONG_MAX
  {
    if s == [] then None
    else
      var factor := if UnitFactor(s[|s| - 1]) > 0 then UnitFactor(s[|s| - 1]) else 1;
      var digits := if UnitFactor(s[|s| - 1]) > 0 then s[..|s| - 1] else s;
      if digits == [] || !AllDigits(digits) then None
      else if DecimalValue(digits) * factor <= ULONG_MAX then Some(DecimalValue(digits) * factor)
      else None
  }

  /** The shortest decimal rendering of `v`, as printf's `%lu` writes it. */
  function Decimal(v: nat): (r: string)
    ensures |r| > 0 && AllDigits(r)
    ensures DecimalValue(r) == v
  {
    if v < 10 then [DigitChar(v)]
    else
      var r := Decimal(v / 10) + [DigitChar(v % 10)];
      assert r[..|r| - 1] == Decimal(v / 10);
      r
  }

  /** `%lu` never writes a leading zero: only zero itself starts with '0'. */
  lemma {:induction false} DecimalNoLeadingZero(v: nat)
    ensures Decimal(v)[0] == '0' ==> Decimal(v) == "0"
    decreases v
  {
    if v >= 10 {
      DecimalNoLeadingZero(v / 10);
      assert Decimal(v)[0] == Decimal(v / 10)[0];
    }
  }

  /** Reading back a `%lu` rendering gives the value that was rendered. */
  lemma {:induction false} ParseUlongDecimal(v: nat)
    requires v <= ULONG_MAX
    ensures ParseUlong(Decimal(v)) == Some(v)
  {
    var r := Decimal(v);
    assert IsDigit(r[|r| - 1]);
    assert UnitFactor(r[|r| - 1]) == 0;
  }

  /** A unit suffix multiplies by the matching power of 1024. */
  lemma ParseUlongUnit(digits: string, unit: char)
    requires digits != [] && AllDigits(digits) && UnitFactor(unit) > 0
    requires DecimalValue(digits) * UnitFactor(unit) <= ULONG_MAX
    ensures ParseUlong(digits + [unit]) == Some(DecimalValue(digits) * UnitFactor(unit))
  {
    assert (digits + [unit])[..|digits|] == digits;
  }
}
