/** The text of attribute trees read back: string_to_attribute. */
module AttributeParse {
  import opened Attribute

  /** Outcome of parsing from an offset. Unmodelled covers what leaves the tree fragment or defined
      behaviour: a fractional number, a string whose copy overruns the parser's buffer, a dictionary key
      that is not a string, a malformed data byte, and a dictionary whose Type entry names the service
      interface, which is looked up in the registry, or is no string at all. */
  datatype ParseResult = Parsed(value: Attr, off: nat) | Failed | Unmodelled

  /** cfg[off] of a NUL-terminated string. */
  function At(cfg: string, off: nat): char {
    if off < |cfg| then cfg[off] else '\0'
  }

  predicate IsSpace(c: char) {
    c == ' ' || c == '\r' || c == '\n' || c == '\t'
  }

  predicate IsHexDigit(c: char) {
    '0' <= c <= '9' || 'a' <= c <= 'f' || 'A' <= c <= 'F'
  }

  function DigitValue(c: char): (d: nat)
    requires IsHexDigit(c)
    ensures d < 16
  {
    if '0' <= c <= '9' then c as nat - '0' as nat
    else if 'a' <= c <= 'f' then c as nat - 'a' as nat + 10
    else c as nat - 'A' as nat + 10
  }

  /** skip_special_symbols. */
  function Skip(cfg: string, off: nat): (r: nat)
    ensures r >= off && !IsSpace(At(cfg, r))
    ensures off <= |cfg| ==> r <= |cfg|
    ensures !IsSpace(At(cfg, off)) ==> r == off
    decreases |cfg| - off
  {
    if IsSpace(At(cfg, off)) then Skip(cfg, off + 1) else off
  }

  /** End of the run of characters up to the closing quote or the end of the text. */
  function QuoteEnd(cfg: string, off: nat, quote: char): (r: nat)
    ensures r >= off
    decreases |cfg| - off
  {
    if At(cfg, off) != quote && At(cfg, off) != '\0' then QuoteEnd(cfg, off + 1, quote) else off
  }

  /** End of a run of at most room hexadecimal digits. */
  function DigitsEnd(cfg: string, off: nat, room: nat): (r: nat)
    ensures off <= r && (off <= |cfg| ==> r <= |cfg|)
    ensures forall k | off <= k < r :: k < |cfg| && IsHexDigit(cfg[k])
    decreases room
  {
    if room > 0 && IsHexDigit(At(cfg, off)) then DigitsEnd(cfg, off + 1, room - 1) else off
  }

  /** Value of the longest prefix of digits below the base, saturated at 2^64 - 1 (strtoull). */
  function NumberOf(digits: string, base: nat, acc: nat): nat
    decreases |digits|
  {
    if digits == [] || !IsHexDigit(digits[0]) || DigitValue(digits[0]) >= base
    then (if acc < 0x1_0000_0000_0000_0000 then acc else 0xFFFF_FFFF_FFFF_FFFF)
    else NumberOf(digits[1..], base, acc * base + DigitValue(digits[0]))
  }

  /** strtoull(digits, NULL, 0) for an optional 0x, then hexadecimal digits. */
  function StrToULL(hexPrefix: bool, digits: string): nat {
    if hexPrefix then NumberOf(digits, 16, 0)
    else if digits != [] && digits[0] == '0' then NumberOf(digits, 8, 0)
    else NumberOf(digits, 10, 0)
  }

  /** The dictionary's operator[] followed by assignment: the first entry with the key, or a new one. */
  function Put(pairs: seq<Pair>, key: string, value: Attr): seq<Pair> {
    if pairs == [] then [Pair(key, value)]
    else if pairs[0].key == key then [Pair(key, value)] + pairs[1..]
    else [pairs[0]] + Put(pairs[1..], key, value)
  }

  predicate HasKey(pairs: seq<Pair>, key: string) {
    exists k | 0 <= k < |pairs| :: pairs[k].key == key && pairs[k].value != Nil
  }

  /** The dictionary's operator[]: the value of the first entry with the key, or nil. */
  function Get(pairs: seq<Pair>, key: string): Attr {
    if pairs == [] then Nil else if pairs[0].key == key then pairs[0].value else Get(pairs[1..], key)
  }

  const IFACE_SERVICE: string := "IService"

  /** The Type entry is followed up, not just reported. */
  predicate Resolved(pairs: seq<Pair>) {
    HasKey(pairs, "Type") && (Get(pairs, "Type").Str? ==> Get(pairs, "Type").s == IFACE_SERVICE)
  }

  predicate Matches(cfg: string, off: nat, word: string) {
    forall k | 0 <= k < |word| :: At(cfg, off + k) == word[k]
  }

  // ------------------------------------------------------------------ the parser as a function

  /** string_to_attribute. */
  function ParseValue(cfg: string, start: nat): (r: ParseResult)
    ensures r.Parsed? ==> r.off > start
    decreases |cfg| - start, 0
  {
    var off := Skip(cfg, start);
    var c := At(cfg, off);
    if c == '\'' || c == '"' then ParseString(cfg, off)
    else if c == '[' then ParseItems(cfg, Skip(cfg, off + 1), [])
    else if c == '{' then ParsePairs(cfg, Skip(cfg, off + 1), [])
    else if c == '(' then ParseBytes(cfg, Skip(cfg, off + 1), [])
    else if Matches(cfg, off, "None") then Parsed(Nil, Skip(cfg, off + 4))
    else if (c == 'f' || c == 'F') && Matches(cfg, off + 1, "alse") then Parsed(Bool(false), Skip(cfg, off + 5))
    else if (c == 't' || c == 'T') && Matches(cfg, off + 1, "rue") then Parsed(Bool(true), Skip(cfg, off + 4))
    else ParseNumber(cfg, off)
  }

  function ParseString(cfg: string, off: nat): (r: ParseResult)
    requires At(cfg, off) == '\'' || At(cfg, off) == '"'
    ensures r.Parsed? ==> r.off > off
  {
    var end := QuoteEnd(cfg, off + 1, cfg[off]);
    if end - (off + 1) >= 1024 then Unmodelled
    else if At(cfg, end) != cfg[off] then Failed
    else Parsed(Str(cfg[off + 1..end]), Skip(cfg, end + 1))
  }

  function ParseNumber(cfg: string, off: nat): (r: ParseResult)
    ensures r.Parsed? ==> r.off > off
  {
    var hexPrefix := At(cfg, off) == '0' && At(cfg, off + 1) == 'x';
    var negative := !hexPrefix && At(cfg, off) == '-';
    var first := if hexPrefix then off + 2 else if negative then off + 1 else off;
    var end := DigitsEnd(cfg, first, if hexPrefix then 61 else 63);
    if At(cfg, end) == '.' then Unmodelled
    else
      var t := Int(StrToULL(hexPrefix, if first <= end <= |cfg| then cfg[first..end] else ""));
      var next := Skip(cfg, end);
      if next == off then Failed else Parsed(Int64(if negative then Int(-t) else t), next)
  }

  /** The loop over list items: off is at an item or at the closing bracket. */
  function ParseItems(cfg: string, off: nat, items: seq<Attr>): (r: ParseResult)
    ensures r.Parsed? ==> r.off > off
    decreases |cfg| - off, 1
  {
    if At(cfg, off) == ']' then Parsed(List(items), Skip(cfg, off + 1))
    else if At(cfg, off) == '\0' then Failed
    else
      match ParseValue(cfg, off)
      case Parsed(item, next) =>
        var s := Skip(cfg, next);
        ParseItems(cfg, if At(cfg, s) == ',' then Skip(cfg, s + 1) else s, items + [item])
      case Failed => Failed
      case Unmodelled => Unmodelled
  }

  /** The loop over dictionary entries. */
  function ParsePairs(cfg: string, off: nat, pairs: seq<Pair>): (r: ParseResult)
    ensures r.Parsed? ==> r.off > off
    decreases |cfg| - off, 1
  {
    if At(cfg, off) == '}' then
      if Resolved(pairs) then Unmodelled else Parsed(Dict(pairs), Skip(cfg, off + 1))
    else if At(cfg, off) == '\0' then Failed
    else
      match ParseValue(cfg, off)
      case Failed => Failed
      case Unmodelled => Unmodelled
      case Parsed(key, afterKey) =>
        var colon := Skip(cfg, afterKey);
        if At(cfg, colon) != ':' then Failed
        else
          match ParseValue(cfg, Skip(cfg, colon + 1))
          case Failed => Failed
          case Unmodelled => Unmodelled
          case Parsed(value, afterValue) =>
            if !key.Str? then Unmodelled
            else
              var s := Skip(cfg, afterValue);
              ParsePairs(cfg, if At(cfg, s) == ',' then Skip(cfg, s + 1) else s, Put(pairs, key.s, value))
  }

  /** The loop over data bytes. */
  function ParseBytes(cfg: string, off: nat, bytes: seq<nat>): (r: ParseResult)
    ensures r.Parsed? ==> r.off > off
    decreases |cfg| - off
  {
    if At(cfg, off) == ')' then Parsed(Data(bytes), Skip(cfg, off + 1))
    else if At(cfg, off) == '\0' then Failed
    else
      var d := if At(cfg, off) == '0' && At(cfg, off + 1) == 'x' then off + 2 else off;
      if !IsHexDigit(At(cfg, d)) || !IsHexDigit(At(cfg, d + 1)) then Unmodelled
      else
        var more := bytes + [16 * DigitValue(At(cfg, d)) + DigitValue(At(cfg, d + 1))];
        var s := Skip(cfg, d + 2);
        if At(cfg, s) == ')' then Parsed(Data(more), Skip(cfg, s + 1))
        else if At(cfg, s) != ',' then Failed
        else ParseBytes(cfg, Skip(cfg, s + 1), more)
  }

  // ------------------------------------------------------------------ the parser with its loops

  method SkipSpecialSymbols(cfg: string, off: nat) returns (r: nat)
    ensures r == Skip(cfg, off)
  {
    r := off;
    while IsSpace(At(cfg, r))
      invariant Skip(cfg, r) == Skip(cfg, off)
      decreases |cfg| - r
    {
      r := r + 1;
    }
  }

  method StringLoop(cfg: string, off: nat) returns (r: ParseResult)
    requires At(cfg, off) == '\'' || At(cfg, off) == '"'
    ensures r == ParseString(cfg, off)
  {
    var t1 := cfg[off];
    var pcur, size := off + 1, 0;
    while At(cfg, pcur) != t1 && At(cfg, pcur) != '\0'
      invariant pcur == off + 1 + size <= |cfg| && QuoteEnd(cfg, pcur, t1) == QuoteEnd(cfg, off + 1, t1)
      decreases |cfg| - pcur
    {
      pcur := pcur + 1;
      size := size + 1;
    }
    var buf := new AutoBuffer();
    var s := cfg[off + 1..off + 1 + size];
    assert "" + s == s;
    var ok := buf.WriteBin(s);
    if !ok {
      return Unmodelled;
    }
    if At(cfg, off + 1 + size) != t1 {
      return Failed;
    }
    var next := SkipSpecialSymbols(cfg, off + 1 + size + 1);
    r := Parsed(Str(buf.Text()), next);
  }

  method ReadDigits(cfg: string, first: nat, all: nat) returns (digits: string, off: nat)
    ensures off == DigitsEnd(cfg, first, all)
    ensures digits == if first <= off <= |cfg| then cfg[first..off] else ""
  {
    var room := all;
    off, digits := first, "";
    while room > 0 && IsHexDigit(At(cfg, off))
      invariant first <= off && DigitsEnd(cfg, off, room) == DigitsEnd(cfg, first, all)
      invariant first <= |cfg| ==> off <= |cfg| && digits == cfg[first..off]
      invariant first > |cfg| ==> off == first && digits == ""
      decreases room
    {
      digits := digits + [cfg[off]];
      off, room := off + 1, room - 1;
    }
  }

  method NumberLoop(cfg: string, start: nat) returns (r: ParseResult)
    ensures r == ParseNumber(cfg, start)
  {
    hide Skip, DigitsEnd, StrToULL;
    var off, room, hexPrefix, negative := start, 63, false, false;
    if At(cfg, off) == '0' && At(cfg, off + 1) == 'x' {
      off, room, hexPrefix := off + 2, 61, true;
    } else if At(cfg, off) == '-' {
      off, negative := off + 1, true;
    }
    var digits;
    digits, off := ReadDigits(cfg, off, room);
    if At(cfg, off) == '.' {
      return Unmodelled;
    }
    var t1 := Int(StrToULL(hexPrefix, digits));
    if negative {
      t1 := Int(-t1);
    }
    var next := SkipSpecialSymbols(cfg, off);
    if next == start {
      return Failed;
    }
    r := Parsed(Int64(t1), next);
  }

  method ListLoop(cfg: string, start: nat) returns (r: ParseResult)
    ensures r == ParseItems(cfg, start, [])
    decreases |cfg| - start, 1
  {
    hide ParseValue, Skip, Put, HasKey, Get;
    var off, items := start, [];
    while At(cfg, off) != ']' && At(cfg, off) != '\0'
      invariant off >= start && ParseItems(cfg, off, items) == ParseItems(cfg, start, [])
      decreases |cfg| - off
    {
      var item := StringToAttribute(cfg, off);
      match item {
        case Failed => return Failed;
        case Unmodelled => return Unmodelled;
        case Parsed(newItem, next) =>
          items := items + [newItem];
          off := SkipSpecialSymbols(cfg, next);
          if At(cfg, off) == ',' {
            off := SkipSpecialSymbols(cfg, off + 1);
          }
      }
    }
    if At(cfg, off) != ']' {
      return Failed;
    }
    off := SkipSpecialSymbols(cfg, off + 1);
    r := Parsed(List(items), off);
  }

  method DictLoop(cfg: string, start: nat) returns (r: ParseResult)
    ensures r == ParsePairs(cfg, start, [])
    decreases |cfg| - start, 1
  {
    hide ParseValue, Skip, Put, HasKey, Get;
    var off, pairs := start, [];
    while At(cfg, off) != '}' && At(cfg, off) != '\0'
      invariant off >= start && ParsePairs(cfg, off, pairs) == ParsePairs(cfg, start, [])
      decreases |cfg| - off
    {
      var newKey := StringToAttribute(cfg, off);
      if !newKey.Parsed? {
        return newKey;
      }
      var colon := SkipSpecialSymbols(cfg, newKey.off);
      if At(cfg, colon) != ':' {
        return Failed;
      }
      colon := SkipSpecialSymbols(cfg, colon + 1);
      var newValue := StringToAttribute(cfg, colon);
      if !newValue.Parsed? {
        return newValue;
      }
      if !newKey.value.Str? {
        return Unmodelled;
      }
      pairs := Put(pairs, newKey.value.s, newValue.value);
      off := SkipSpecialSymbols(cfg, newValue.off);
      if At(cfg, off) == ',' {
        off := SkipSpecialSymbols(cfg, off + 1);
      }
    }
    if At(cfg, off) != '}' {
      return Failed;
    }
    off := SkipSpecialSymbols(cfg, off + 1);
    if HasKey(pairs, "Type") {
      var kind := Get(pairs, "Type");
      if !kind.Str? || kind.s == IFACE_SERVICE {
        return Unmodelled;
      }
    }
    r := Parsed(Dict(pairs), off);
  }

  method DataLoop(cfg: string, start: nat) returns (r: ParseResult)
    ensures r == ParseBytes(cfg, start, [])
  {
    hide Skip, DigitValue, IsHexDigit;
    var off, bytes: seq<nat> := start, [];
    while At(cfg, off) != ')' && At(cfg, off) != '\0'
      invariant ParseBytes(cfg, off, bytes) == ParseBytes(cfg, start, [])
      decreases |cfg| - off
    {
      if At(cfg, off) == '0' && At(cfg, off + 1) == 'x' {
        off := off + 2;
      }
      if !IsHexDigit(At(cfg, off)) || !IsHexDigit(At(cfg, off + 1)) {
        return Unmodelled;
      }
      bytes := bytes + [16 * DigitValue(At(cfg, off)) + DigitValue(At(cfg, off + 1))];
      off := SkipSpecialSymbols(cfg, off + 2);
      if At(cfg, off) == ')' {
        break;
      }
      if At(cfg, off) != ',' {
        return Failed;
      }
      off := SkipSpecialSymbols(cfg, off + 1);
    }
    if At(cfg, off) != ')' {
      return Failed;
    }
    off := SkipSpecialSymbols(cfg, off + 1);
    r := Parsed(Data(bytes), off);
  }

  /** string_to_attribute: parses one tree from the offset. */
  method StringToAttribute(cfg: string, start: nat) returns (r: ParseResult)
    ensures r == ParseValue(cfg, start)
    decreases |cfg| - start, 0
  {
    hide Skip, Matches, ParseItems, ParsePairs, ParseBytes, ParseString, ParseNumber;
    var off := SkipSpecialSymbols(cfg, start);
    var c := At(cfg, off);
    if c == '\'' || c == '"' {
      r := StringLoop(cfg, off);
    } else if c == '[' {
      off := SkipSpecialSymbols(cfg, off + 1);
      r := ListLoop(cfg, off);
    } else if c == '{' {
      off := SkipSpecialSymbols(cfg, off + 1);
      r := DictLoop(cfg, off);
    } else if c == '(' {
      off := SkipSpecialSymbols(cfg, off + 1);
      r := DataLoop(cfg, off);
    } else if Matches(cfg, off, "None") {
      off := SkipSpecialSymbols(cfg, off + 4);
      r := Parsed(Nil, off);
    } else if (c == 'f' || c == 'F') && Matches(cfg, off + 1, "alse") {
      off := SkipSpecialSymbols(cfg, off + 5);
      r := Parsed(Bool(false), off);
    } else if (c == 't' || c == 'T') && Matches(cfg, off + 1, "rue") {
      off := SkipSpecialSymbols(cfg, off + 4);
      r := Parsed(Bool(true), off);
    } else {
      r := NumberLoop(cfg, off);
    }
  }
}
