/** What the parser makes of text written by hand: blanks, both quotes, decimal, octal and hexadecimal
    numbers, and the keywords in both spellings. */
module AttributeSyntax {
  import opened Attribute
  import opened AttributeParse
  import opened AttributeRoundTrip

  // ------------------------------------------------------------------ blanks

  ghost predicate Blank(s: string) {
    forall k | 0 <= k < |s| :: s[k] == ' ' || s[k] == '\t' || s[k] == '\r' || s[k] == '\n'
  }

  /** A text that does not go on with a blank. */
  predicate Stops(rest: string) {
    rest == "" || (rest[0] != ' ' && rest[0] != '\t' && rest[0] != '\r' && rest[0] != '\n')
  }

  lemma {:induction false} SkipBlanks(cfg: string, off: nat, blanks: string, rest: string)
    requires Reads(cfg, off, blanks, rest) && Blank(blanks) && Stops(rest)
    ensures Skip(cfg, off) == off + |blanks|
    decreases |blanks|
  {
    if blanks == "" {
      ReadsNext(cfg, off, blanks, rest);
    } else {
      ReadsAt(cfg, off, blanks, rest, 0);
      assert blanks == [blanks[0]] + blanks[1..];
      ReadsOn(cfg, off, [blanks[0]], blanks[1..], rest);
      SkipBlanks(cfg, off + 1, blanks[1..], rest);
    }
  }

  /** Blanks after a text are passed. */
  lemma SkipAfter(cfg: string, off: nat, text: string, blanks: string, rest: string)
    requires Reads(cfg, off, text, blanks + rest) && Blank(blanks) && Stops(rest)
    ensures Skip(cfg, off + |text|) == off + |text| + |blanks|
    ensures Reads(cfg, off + |text| + |blanks|, "", rest)
  {
    hide Blank, Stops, Skip;
    ReadsNext(cfg, off, text, blanks + rest);
    SkipBlanks(cfg, off + |text|, blanks, rest);
    ReadsNext(cfg, off + |text|, blanks, rest);
    assert "" + rest == rest;
  }

  /** Leading blanks change nothing. */
  lemma LeadingBlanks(cfg: string, off: nat)
    ensures ParseValue(cfg, off) == ParseValue(cfg, Skip(cfg, off))
  {
    hide Skip, ParseString, ParseItems, ParsePairs, ParseBytes, ParseNumber, Matches;
    SkipPlain(cfg, Skip(cfg, off));
  }

  // ------------------------------------------------------------------ digits by position

  /** What a digit is worth. */
  function Weight(c: char): nat {
    if '0' <= c <= '9' then (c as int) - 48
    else if 'a' <= c <= 'f' then (c as int) - 87
    else if 'A' <= c <= 'F' then (c as int) - 55
    else 99
  }

  ghost predicate Digits(s: string, base: nat) {
    forall k | 0 <= k < |s| :: Weight(s[k]) < base
  }

  /** The number a row of digits stands for: the last digit, and base times the rest. */
  function Positional(s: string, base: nat): nat {
    if s == "" then 0 else base * Positional(s[..|s| - 1], base) + Weight(s[|s| - 1])
  }

  /** The greatest 64-bit number stands for all greater ones. */
  function Clamp(v: nat): nat {
    if v < 0x1_0000_0000_0000_0000 then v else 0xFFFF_FFFF_FFFF_FFFF
  }

  ghost function Horner(s: string, base: nat, acc: nat): nat {
    if s == "" then acc else Horner(s[1..], base, acc * base + Weight(s[0]))
  }

  lemma {:induction false} HornerAppend(s: string, c: char, base: nat, acc: nat)
    ensures Horner(s + [c], base, acc) == Horner(s, base, acc) * base + Weight(c)
  {
    hide Weight;
    if s != "" {
      assert (s + [c])[1..] == s[1..] + [c];
      HornerAppend(s[1..], c, base, acc * base + Weight(s[0]));
    }
  }

  lemma {:induction false} HornerIsPositional(s: string, base: nat)
    ensures Horner(s, base, 0) == Positional(s, base)
    decreases |s|
  {
    hide Weight;
    if s != "" {
      var n := |s| - 1;
      HornerIsPositional(s[..n], base);
      HornerAppend(s[..n], s[n], base, 0);
      assert s == s[..n] + [s[n]];
    }
  }

  lemma WeightIsDigit(c: char)
    ensures IsHexDigit(c) <==> Weight(c) < 16
    ensures IsHexDigit(c) ==> DigitValue(c) == Weight(c)
  {
  }

  /** strtoull reads the digits of its base and stops at the first other character. */
  lemma {:induction false} NumberIsPositional(s: string, t: string, base: nat, acc: nat)
    requires 0 < base <= 16 && Digits(s, base) && (t == "" || Weight(t[0]) >= base)
    ensures NumberOf(s + t, base, acc) == Clamp(Horner(s, base, acc))
    decreases |s|
  {
    hide Weight, DigitValue, IsHexDigit;
    if s == "" {
      assert s + t == t;
      if t != "" { WeightIsDigit(t[0]); }
    } else {
      WeightIsDigit(s[0]);
      assert (s + t)[1..] == s[1..] + t && (s + t)[0] == s[0];
      NumberIsPositional(s[1..], t, base, acc * base + Weight(s[0]));
    }
  }

  lemma {:induction false} DigitsStop(cfg: string, off: nat, s: string, rest: string, room: nat)
    requires Reads(cfg, off, s, rest) && |s| <= room && Digits(s, 16) && (rest == "" || Weight(rest[0]) >= 16)
    ensures DigitsEnd(cfg, off, room) == off + |s|
    decreases |s|
  {
    hide Weight, IsHexDigit;
    if s == "" {
      ReadsNext(cfg, off, s, rest);
      WeightIsDigit(At(cfg, off));
      assert Weight('\0') == 99 by { NulWeight(); }
    } else {
      ReadsAt(cfg, off, s, rest, 0);
      WeightIsDigit(s[0]);
      assert s == [s[0]] + s[1..];
      ReadsOn(cfg, off, [s[0]], s[1..], rest);
      DigitsStop(cfg, off + 1, s[1..], rest, room - 1);
    }
  }

  lemma NulWeight()
    ensures Weight('\0') == 99
  {
  }

  // ------------------------------------------------------------------ numbers

  function Signed(negative: bool, v: int): int {
    if negative then -v else v
  }


  /** What may stand directly behind a number. */
  predicate NumberEnds(rest: string) {
    rest == "" || (Weight(rest[0]) >= 16 && rest[0] != '.' && rest[0] != 'x')
  }

  /** A decimal number, or an octal one when it starts with 0, after an optional minus sign: the number its
      digits stand for, in 64 bits. Hexadecimal digits that do not belong to the base end it, and are
      passed. */
  lemma NumberReads(negative: bool, s: string, t: string, cfg: string, off: nat, blanks: string, rest: string)
    requires 1 <= |s| && |s| + |t| <= 63 && Digits(s, if s[0] == '0' then 8 else 10)
    requires Digits(t, 16) && (t == "" || Weight(t[0]) >= if s[0] == '0' then 8 else 10)
    requires Blank(blanks) && Stops(rest) && NumberEnds(blanks + rest)
    requires Reads(cfg, off, (if negative then "-" else "") + (s + t), blanks + rest)
    ensures var v := Clamp(Positional(s, if s[0] == '0' then 8 else 10));
      ParseValue(cfg, off) ==
        Parsed(Int64(Int(Signed(negative, v))), off + (if negative then 1 else 0) + |s| + |t| + |blanks|)
  {
    var sign := if negative then "-" else "";
    var first := off + |sign|;
    var base := if s[0] == '0' then 8 else 10;
    hide Reads, Skip, ParseNumber, Blank, Stops, Positional, Int, Clamp;
    ReadsOn(cfg, off, sign, s + t, blanks + rest);
    ReadsAt(cfg, first, s + t, blanks + rest, 0);
    if negative { ReadsAt(cfg, off, sign + (s + t), blanks + rest, 0); }
    NotAWord(cfg, off);
    NumberDigits(negative, s, t, cfg, off, blanks, rest);
  }

  /** A value that starts with a digit or a minus sign is a number. */
  lemma NotAWord(cfg: string, off: nat)
    requires At(cfg, off) == '-' || '0' <= At(cfg, off) <= '9'
    ensures ParseValue(cfg, off) == ParseNumber(cfg, off)
  {
    SkipPlain(cfg, off);
    assert !Matches(cfg, off, "None") by { assert At(cfg, off + 0) != "None"[0]; }
    hide Skip, ParseNumber, ParseItems, ParsePairs, ParseBytes, ParseString;
  }

  lemma NumberDigits(negative: bool, s: string, t: string, cfg: string, off: nat, blanks: string, rest: string)
    requires 1 <= |s| && |s| + |t| <= 63 && Digits(s, if s[0] == '0' then 8 else 10)
    requires Digits(t, 16) && (t == "" || Weight(t[0]) >= if s[0] == '0' then 8 else 10)
    requires Blank(blanks) && Stops(rest) && NumberEnds(blanks + rest)
    requires var first := off + if negative then 1 else 0;
      && (negative ==> At(cfg, off) == '-')
      && Reads(cfg, first, s + t, blanks + rest)
    ensures var v := Clamp(Positional(s, if s[0] == '0' then 8 else 10));
      ParseNumber(cfg, off) ==
        Parsed(Int64(Int(Signed(negative, v))), off + (if negative then 1 else 0) + |s| + |t| + |blanks|)
  {
    hide *;
    var first := off + if negative then 1 else 0;
    AllDigits(s, t, if s[0] == '0' then 8 else 10);
    Worth(s, t);
    DigitRow(s + t, cfg, first, blanks, rest);
    assert |s + t| == |s| + |t|;
    Assembled(negative, cfg, off, first, first + |s + t|, first + |s + t| + |blanks|);
  }

  /** A row of digits, where it ends and what follows. */
  lemma DigitRow(all: string, cfg: string, first: nat, blanks: string, rest: string)
    requires all != "" && '0' <= all[0] <= '9' && |all| <= 63 && Digits(all, 16)
    requires Blank(blanks) && Stops(rest) && NumberEnds(blanks + rest) && Reads(cfg, first, all, blanks + rest)
    ensures '0' <= At(cfg, first) <= '9' && At(cfg, first + 1) != 'x'
    ensures DigitsEnd(cfg, first, 63) == first + |all| <= |cfg| && cfg[first..first + |all|] == all
    ensures At(cfg, first + |all|) != '.' && Skip(cfg, first + |all|) == first + |all| + |blanks|
  {
    hide Skip, DigitsEnd, Digits, Blank, Stops, NumberEnds, Reads, Weight, IsHexDigit;
    ReadsAt(cfg, first, all, blanks + rest, 0);
    SecondChar(cfg, first, all, blanks + rest);
    EndOfNumber(blanks + rest);
    DigitsStop(cfg, first, all, blanks + rest, 63);
    ReadsNext(cfg, first, all, blanks + rest);
    SkipAfter(cfg, first, all, blanks, rest);
  }

  lemma EndOfNumber(rest: string)
    requires NumberEnds(rest)
    ensures rest == "" || (Weight(rest[0]) >= 16 && rest[0] != '.')
  {
  }

  /** ParseNumber put together from its pieces. */
  lemma Assembled(negative: bool, cfg: string, off: nat, first: nat, end: nat, next: nat)
    requires first == (off + if negative then 1 else 0) && (negative <==> At(cfg, off) == '-')
    requires !(At(cfg, off) == '0' && At(cfg, off + 1) == 'x')
    requires DigitsEnd(cfg, first, 63) == end && first <= end <= |cfg| && At(cfg, end) != '.'
    requires Skip(cfg, end) == next > off
    ensures ParseNumber(cfg, off) == Parsed(Int64(Int(Signed(negative, StrToULL(false, cfg[first..end])))), next)
  {
    hide Skip, DigitsEnd, Int, StrToULL;
    IntTwice(StrToULL(false, cfg[first..end]));
  }

  lemma IntTwice(v: int)
    ensures Int(Int(v)) == Int(v) && Int(-Int(v)) == Int(-v)
  {
    var q, r := v / 0x1_0000_0000_0000_0000, v % 0x1_0000_0000_0000_0000;
    var c := if r >= 0x8000_0000_0000_0000 then q + 1 else q;
    assert v == Int(v) + 0x1_0000_0000_0000_0000 * c;
    ModShift(Int(v), c);
    ModShift(-v, c);
    hide Int;
    SameBits(Int(v), v);
    SameBits(-Int(v), -v);
  }

  lemma ModShift(x: int, c: int)
    ensures (x + 0x1_0000_0000_0000_0000 * c) % 0x1_0000_0000_0000_0000 == x % 0x1_0000_0000_0000_0000
  {
  }

  lemma SameBits(x: int, y: int)
    requires x % 0x1_0000_0000_0000_0000 == y % 0x1_0000_0000_0000_0000
    ensures Int(x) == Int(y)
  {
  }

  lemma Worth(s: string, t: string)
    requires s != "" && Digits(s, if s[0] == '0' then 8 else 10)
    requires t == "" || Weight(t[0]) >= if s[0] == '0' then 8 else 10
    ensures StrToULL(false, s + t) == Clamp(Positional(s, if s[0] == '0' then 8 else 10))
  {
    hide NumberOf, Positional, Clamp, Horner, Digits, Weight;
    var base := if s[0] == '0' then 8 else 10;
    assert (s + t)[0] == s[0];
    NumberIsPositional(s, t, base, 0);
    HornerIsPositional(s, base);
  }

  lemma AllDigits(s: string, t: string, base: nat)
    requires Digits(s, base) && Digits(t, 16) && base <= 10
    ensures Digits(s + t, 16) && Digits(s, 16)
    ensures s != "" ==> '0' <= s[0] <= '9' && (s + t)[0] == s[0]
  {
  }

  /** No x follows the first digit. */
  lemma SecondChar(cfg: string, off: nat, all: string, rest: string)
    requires Reads(cfg, off, all, rest) && all != "" && Digits(all, 16) && NumberEnds(rest)
    ensures At(cfg, off + 1) != 'x'
  {
    if |all| > 1 {
      ReadsAt(cfg, off, all, rest, 1);
    } else {
      ReadsNext(cfg, off, all, rest);
    }
  }

  /** A hexadecimal number after 0x. */
  lemma HexReads(s: string, cfg: string, off: nat, blanks: string, rest: string)
    requires 1 <= |s| <= 61 && Digits(s, 16) && Blank(blanks) && Stops(rest) && NumberEnds(blanks + rest)
    requires Reads(cfg, off, "0x" + s, blanks + rest)
    ensures ParseValue(cfg, off) == Parsed(Int64(Int(Clamp(Positional(s, 16)))), off + 2 + |s| + |blanks|)
  {
    hide Skip, DigitsEnd, Int, NumberOf, Positional, Clamp, Horner, Digits, Blank, Stops, IsHexDigit, ParseItems,
      ParsePairs, ParseBytes, ParseString;
    ReadsAt(cfg, off, "0x" + s, blanks + rest, 0);
    ReadsAt(cfg, off, "0x" + s, blanks + rest, 1);
    ReadsOn(cfg, off, "0x", s, blanks + rest);
    NotAWord(cfg, off);
    DigitsStop(cfg, off + 2, s, blanks + rest, 61);
    ReadsNext(cfg, off + 2, s, blanks + rest);
    NumberIsPositional(s, "", 16, 0);
    assert s + "" == s;
    HornerIsPositional(s, 16);
    SkipAfter(cfg, off + 2, s, blanks, rest);
  }

  /** Up to 20 decimal digits below 2^64 are that number. */
  lemma DecimalTrip(negative: bool, s: string, cfg: string, off: nat, rest: string)
    requires 1 <= |s| <= 20 && Digits(s, 10) && s[0] != '0' && Positional(s, 10) < 0x1_0000_0000_0000_0000
    requires Delimited(rest) && Reads(cfg, off, (if negative then "-" else "") + s, rest)
    ensures ParseValue(cfg, off) ==
      Parsed(Int64(Int(Signed(negative, Positional(s, 10)))), off + (if negative then 1 else 0) + |s|)
  {
    hide Reads, ParseValue, Positional, Int;
    assert s + "" == s && "" + rest == rest;
    NumberReads(negative, s, "", cfg, off, "", rest);
  }
}
