/** Printing a tree and parsing the text gives the tree back. */
module AttributeRoundTrip {
  import opened Attribute
  import opened AttributeParse

  /** Strings that survive between double quotes. */
  ghost predicate Quotable(s: string) {
    |s| < 1024 && forall k | 0 <= k < |s| :: s[k] != '"' && s[k] != '\0'
  }

  /** A Type value the parser leaves alone. */
  predicate PlainType(a: Attr) {
    a == Nil || (a.Str? && a.s != IFACE_SERVICE)
  }

  /** Trees the text form can carry: quotable strings and keys, no key twice, and no Type entry but a
      string that does not name the service interface. */
  ghost predicate Printable(a: Attr)
    decreases a
  {
    match a
    case Str(s) => Quotable(s)
    case List(items) => forall k | 0 <= k < |items| :: Printable(items[k])
    case Dict(pairs) =>
      && (forall k | 0 <= k < |pairs| ::
            && Quotable(pairs[k].key) && Printable(pairs[k].value)
            && (pairs[k].key == "Type" ==> PlainType(pairs[k].value)))
      && forall j, k | 0 <= j < k < |pairs| :: pairs[j].key != pairs[k].key
    case _ => true
  }

  /** Unsigned integers are read back as signed ones with the same 64 bits; nothing else changes. */
  function Normal(a: Attr): Attr
    decreases a
  {
    match a
    case UInt64(u) => Int64(Int(u))
    case List(items) => List(NormalItems(items))
    case Dict(pairs) => Dict(NormalPairs(pairs))
    case _ => a
  }

  function NormalItems(items: seq<Attr>): (r: seq<Attr>)
    ensures |r| == |items|
    decreases items
  {
    seq(|items|, k requires 0 <= k < |items| => Normal(items[k]))
  }

  function NormalPairs(pairs: seq<Pair>): (r: seq<Pair>)
    ensures |r| == |pairs|
    decreases pairs
  {
    seq(|pairs|, k requires 0 <= k < |pairs| => Pair(pairs[k].key, Normal(pairs[k].value)))
  }

  /** What may follow a printed value: the end, or a delimiter of the enclosing value. */
  predicate Delimited(rest: string) {
    rest == "" || rest[0] == ',' || rest[0] == ']' || rest[0] == '}' || rest[0] == ':' || rest[0] == ')'
  }

  /** The text at an offset, and what comes after it. */
  ghost predicate Reads(cfg: string, off: nat, text: string, rest: string) {
    off <= |cfg| && cfg[off..] == text + rest
  }

  lemma ReadsAt(cfg: string, off: nat, text: string, rest: string, k: nat)
    requires Reads(cfg, off, text, rest) && k < |text|
    ensures off + k < |cfg| && At(cfg, off + k) == text[k]
  {
    assert cfg[off..][k] == (text + rest)[k];
  }

  lemma ReadsOn(cfg: string, off: nat, a: string, b: string, rest: string)
    requires Reads(cfg, off, a + b, rest)
    ensures Reads(cfg, off, a, b + rest) && Reads(cfg, off + |a|, b, rest)
  {
    assert a + b + rest == a + (b + rest);
    assert cfg[off + |a|..] == cfg[off..][|a|..];
  }

  lemma ReadsNext(cfg: string, off: nat, text: string, rest: string)
    requires Reads(cfg, off, text, rest)
    ensures off + |text| <= |cfg| && cfg[off + |text|..] == rest
    ensures At(cfg, off + |text|) == if rest == "" then '\0' else rest[0]
    ensures off + |text| <= |cfg| && cfg[off..off + |text|] == text
  {
    assert cfg[off + |text|..] == cfg[off..][|text|..];
    if rest != "" { assert cfg[off + |text|..][0] == rest[0]; }
    assert cfg[off..off + |text|] == cfg[off..][..|text|];
  }

  /** After a value the parser skips spaces; before a delimiter there are none. */
  lemma SkipNone(cfg: string, off: nat, text: string, rest: string)
    requires Reads(cfg, off, text, rest) && Delimited(rest)
    ensures Skip(cfg, off + |text|) == off + |text|
  {
    ReadsNext(cfg, off, text, rest);
  }

  // ------------------------------------------------------------------ numbers

  ghost function HexValue(s: string, acc: nat): nat
    requires forall k | 0 <= k < |s| :: IsHexDigit(s[k])
  {
    if s == [] then acc else HexValue(s[1..], acc * 16 + DigitValue(s[0]))
  }

  lemma {:induction false} HexValueAppend(s: string, c: char, acc: nat)
    requires IsHexDigit(c) && forall k | 0 <= k < |s| :: IsHexDigit(s[k])
    ensures HexValue(s + [c], acc) == HexValue(s, acc) * 16 + DigitValue(c)
  {
    if s != [] {
      assert (s + [c])[1..] == s[1..] + [c];
      HexValueAppend(s[1..], c, acc * 16 + DigitValue(s[0]));
    }
  }

  lemma {:induction false} HexDigitsRead(v: nat)
    ensures forall k | 0 <= k < |HexDigits(v)| :: IsHexDigit(HexDigits(v)[k])
    ensures HexValue(HexDigits(v), 0) == v && |HexDigits(v)| >= 1
  {
    LowerHexRead(v % 16);
    hide LowerHex, DigitValue, IsHexDigit;
    if v < 16 {
      HexValueAppend("", LowerHex(v), 0);
      assert "" + [LowerHex(v)] == [LowerHex(v)];
    } else {
      HexDigitsRead(v / 16);
      HexValueAppend(HexDigits(v / 16), LowerHex(v % 16), 0);
    }
  }

  lemma LowerHexRead(d: nat)
    requires d < 16
    ensures IsHexDigit(LowerHex(d)) && DigitValue(LowerHex(d)) == d
  {
  }

  lemma {:induction false} NumberIsValue(s: string, acc: nat)
    requires forall k | 0 <= k < |s| :: IsHexDigit(s[k])
    requires HexValue(s, acc) < 0x1_0000_0000_0000_0000
    ensures NumberOf(s, 16, acc) == HexValue(s, acc)
    decreases |s|
  {
    if s != [] { NumberIsValue(s[1..], acc * 16 + DigitValue(s[0])); }
  }

  lemma {:induction false} DigitsRun(cfg: string, off: nat, s: string, rest: string, room: nat)
    requires Reads(cfg, off, s, rest) && Delimited(rest) && |s| <= room
    requires forall k | 0 <= k < |s| :: IsHexDigit(s[k])
    ensures DigitsEnd(cfg, off, room) == off + |s|
    decreases |s|
  {
    if s == "" {
      ReadsNext(cfg, off, s, rest);
    } else {
      ReadsAt(cfg, off, s, rest, 0);
      assert s == [s[0]] + s[1..];
      ReadsOn(cfg, off, [s[0]], s[1..], rest);
      DigitsRun(cfg, off + 1, s[1..], rest, room - 1);
    }
  }

  /** A printed 64-bit word is read back as the signed integer with the same bits. */
  lemma NumberTrip(v: nat, cfg: string, off: nat, rest: string)
    requires v < 0x1_0000_0000_0000_0000
    requires Reads(cfg, off, "0x" + HexDigits(v), rest) && Delimited(rest)
    ensures ParseValue(cfg, off) == Parsed(Int64(Int(v)), off + 2 + |HexDigits(v)|)
  {
    hide HexDigits, IsHexDigit, DigitValue, Skip, DigitsEnd, ParseItems, ParsePairs, ParseBytes, ParseString, Int;
    var digits := HexDigits(v);
    var text := "0x" + digits;
    HexDigitsRead(v);
    ReadsAt(cfg, off, text, rest, 0);
    assert !Matches(cfg, off, "None") by { assert At(cfg, off + 0) != "None"[0]; }
    assert !IsSpace(At(cfg, off + 0));
    HexNumber(v, digits, cfg, off, rest);
  }

  lemma HexNumber(v: nat, digits: string, cfg: string, off: nat, rest: string)
    requires v < 0x1_0000_0000_0000_0000 && digits == HexDigits(v)
    requires Reads(cfg, off, "0x" + digits, rest) && Delimited(rest)
    ensures ParseNumber(cfg, off) == Parsed(Int64(Int(v)), off + 2 + |digits|)
  {
    hide HexDigits, IsHexDigit, DigitValue, Skip, DigitsEnd, Int, NumberOf;
    HexDigitsRead(v);
    Power16Word();
    HexDigitsShort(v, 16);
    ReadsAt(cfg, off, "0x" + digits, rest, 0);
    ReadsAt(cfg, off, "0x" + digits, rest, 1);
    ReadsOn(cfg, off, "0x", digits, rest);
    DigitsRun(cfg, off + 2, digits, rest, 61);
    ReadsNext(cfg, off + 2, digits, rest);
    NumberIsValue(digits, 0);
    SkipNone(cfg, off + 2, digits, rest);
  }

  // ------------------------------------------------------------------ strings and keywords

  lemma {:induction false} QuoteRun(cfg: string, off: nat, s: string, rest: string)
    requires Reads(cfg, off, s, rest) && (rest == "" || rest[0] == '"' || rest[0] == '\0')
    requires forall k | 0 <= k < |s| :: s[k] != '"' && s[k] != '\0'
    ensures QuoteEnd(cfg, off, '"') == off + |s|
    decreases |s|
  {
    if s == "" {
      ReadsNext(cfg, off, s, rest);
    } else {
      ReadsAt(cfg, off, s, rest, 0);
      assert s == [s[0]] + s[1..];
      ReadsOn(cfg, off, [s[0]], s[1..], rest);
      QuoteRun(cfg, off + 1, s[1..], rest);
    }
  }

  lemma StringTrip(s: string, cfg: string, off: nat, rest: string)
    requires Quotable(s) && Reads(cfg, off, "\"" + s + "\"", rest) && Delimited(rest)
    ensures ParseValue(cfg, off) == Parsed(Str(s), off + 2 + |s|)
  {
    var text := "\"" + s + "\"";
    ReadsAt(cfg, off, text, rest, 0);
    assert text == "\"" + (s + "\"");
    ReadsOn(cfg, off, "\"", s + "\"", rest);
    ReadsOn(cfg, off + 1, s, "\"", rest);
    QuoteRun(cfg, off + 1, s, "\"" + rest);
    ReadsNext(cfg, off + 1, s, "\"" + rest);
    SkipNone(cfg, off, text, rest);
  }

  lemma WordTrip(a: Attr, cfg: string, off: nat, rest: string)
    requires (a.Nil? || a.Bool?) && Reads(cfg, off, Print(a), rest) && Delimited(rest)
    ensures ParseValue(cfg, off) == Parsed(a, off + |Print(a)|)
  {
    var text := Print(a);
    forall k: nat | k < |text| ensures At(cfg, off + k) == text[k] { ReadsAt(cfg, off, text, rest, k); }
    assert At(cfg, off + 0) == text[0];
    SkipNone(cfg, off, text, rest);
    if a.Bool? { assert At(cfg, off + 0) != "None"[0]; }
    if a == Bool(true) {
      assert Matches(cfg, off + 1, "rue");
    } else if a == Bool(false) {
      assert Matches(cfg, off + 1, "alse");
    }
  }

  // ------------------------------------------------------------------ data

  lemma UpperHexRead(d: nat)
    requires d < 16
    ensures IsHexDigit(UpperHex(d)) && DigitValue(UpperHex(d)) == d
  {
  }

  lemma {:induction false} BytesTrip(bytes: seq<nat>, i: nat, cfg: string, off: nat, rest: string)
    requires i < |bytes| && (forall k | 0 <= k < |bytes| :: bytes[k] < 256) && Delimited(rest)
    requires Reads(cfg, off, PrintBytes(bytes, i), ")" + rest)
    ensures ParseBytes(cfg, off, bytes[..i]) == Parsed(Data(bytes), off + |PrintBytes(bytes, i)| + 1)
    decreases |bytes| - i
  {
    hide HexByte, Reads, Skip, Delimited, ParseBytes;
    var b := bytes[i];
    var byte, tail := HexByte(b), Comma(i, |bytes|) + PrintBytes(bytes, i + 1);
    assert PrintBytes(bytes, i) == byte + tail;
    ReadsOn(cfg, off, byte, tail, ")" + rest);
    HexByteLength(b);
    OneByte(b, bytes[..i], cfg, off, tail + (")" + rest));
    assert bytes[..i] + [b] == bytes[..i + 1];
    if i + 1 == |bytes| {
      assert tail == "" && bytes[..i + 1] == bytes;
      LastByte(cfg, off + 4, rest);
    } else {
      ReadsOn(cfg, off + 4, ",", PrintBytes(bytes, i + 1), ")" + rest);
      NextByte(bytes, i + 1, cfg, off + 4, rest);
      BytesTrip(bytes, i + 1, cfg, off + 5, rest);
    }
  }

  lemma HexByteLength(b: nat)
    requires b < 256
    ensures |HexByte(b)| == 4 && HexByte(b)[0] == '0'
  {
  }

  /** One round of the loop over data bytes. */
  lemma OneByte(b: nat, bytes: seq<nat>, cfg: string, off: nat, rest: string)
    requires b < 256 && Reads(cfg, off, HexByte(b), rest)
    ensures var more, s := bytes + [b], Skip(cfg, off + 4);
      ParseBytes(cfg, off, bytes) ==
      if At(cfg, s) == ')' then Parsed(Data(more), Skip(cfg, s + 1))
      else if At(cfg, s) != ',' then Failed
      else ParseBytes(cfg, Skip(cfg, s + 1), more)
  {
    hide UpperHex, IsHexDigit, DigitValue, Skip, Reads, HexByte;
    ByteAt(b, cfg, off, rest);
    UpperHexRead(b / 16);
    UpperHexRead(b % 16);
  }

  lemma LastByte(cfg: string, off: nat, rest: string)
    requires Reads(cfg, off, "", ")" + rest) && Delimited(rest)
    ensures Skip(cfg, off) == off && At(cfg, off) == ')' && Skip(cfg, off + 1) == off + 1
  {
    ReadsNext(cfg, off, "", ")" + rest);
    SkipPlain(cfg, off);
    assert "" + (")" + rest) == ")" + rest;
    SkipNone(cfg, off, ")", rest);
  }

  lemma NextByte(bytes: seq<nat>, i: nat, cfg: string, off: nat, rest: string)
    requires i < |bytes| && forall k | 0 <= k < |bytes| :: bytes[k] < 256
    requires Reads(cfg, off, ",", PrintBytes(bytes, i) + (")" + rest))
    requires Reads(cfg, off + 1, PrintBytes(bytes, i), ")" + rest)
    ensures Skip(cfg, off) == off && At(cfg, off) == ',' && Skip(cfg, off + 1) == off + 1
  {
    hide HexByte, Reads, Skip, IsHexDigit;
    HexByteLength(bytes[i]);
    ReadsAt(cfg, off, ",", PrintBytes(bytes, i) + (")" + rest), 0);
    ReadsAt(cfg, off + 1, PrintBytes(bytes, i), ")" + rest, 0);
    SkipPlain(cfg, off);
    SkipPlain(cfg, off + 1);
  }

  lemma SkipPlain(cfg: string, off: nat)
    requires !IsSpace(At(cfg, off))
    ensures Skip(cfg, off) == off
  {
  }

  lemma ByteAt(b: nat, cfg: string, off: nat, rest: string)
    requires b < 256 && Reads(cfg, off, HexByte(b), rest)
    ensures At(cfg, off) == '0' && At(cfg, off + 1) == 'x'
    ensures At(cfg, off + 2) == UpperHex(b / 16) && At(cfg, off + 3) == UpperHex(b % 16)
  {
    hide UpperHex;
    ReadsAt(cfg, off, HexByte(b), rest, 0);
    ReadsAt(cfg, off, HexByte(b), rest, 1);
    ReadsAt(cfg, off, HexByte(b), rest, 2);
    ReadsAt(cfg, off, HexByte(b), rest, 3);
  }

  // ------------------------------------------------------------------ trees

  /** No printed value starts with a space, a closing bracket or the end of the text. */
  lemma FirstChar(a: Attr)
    requires Valid(a)
    ensures Print(a) != "" && var c := Print(a)[0]; !IsSpace(c) && c != ']' && c != '}' && c != '\0'
  {
  }

  lemma FirstAt(a: Attr, cfg: string, off: nat, rest: string)
    requires Valid(a) && Reads(cfg, off, Print(a), rest)
    ensures var c := At(cfg, off); !IsSpace(c) && c != ']' && c != '}' && c != '\0'
  {
    FirstChar(a);
    ReadsAt(cfg, off, Print(a), rest, 0);
  }

  lemma {:induction false} ItemsTrip(items: seq<Attr>, i: nat, cfg: string, off: nat, rest: string)
    requires i <= |items| && Delimited(rest)
    requires forall k | 0 <= k < |items| :: Valid(items[k]) && Printable(items[k])
    requires Reads(cfg, off, PrintItems(items, i), "]" + rest)
    ensures ParseItems(cfg, off, NormalItems(items)[..i]) ==
      Parsed(List(NormalItems(items)), off + |PrintItems(items, i)| + 1)
    decreases items, |items| - i
  {
    hide Print, Skip, ParseValue, Normal, Reads, ParseItems, Delimited, NormalItems, Valid, Printable;
    var normal := NormalItems(items);
    if i == |items| {
      LastItem(normal, cfg, off, rest);
      assert normal[..i] == normal;
    } else {
      var text, tail := Print(items[i]), Comma(i, |items|) + PrintItems(items, i + 1);
      assert PrintItems(items, i) == text + tail;
      ReadsOn(cfg, off, text, tail, "]" + rest);
      TailDelimited(i, |items|, PrintItems(items, i + 1), "]", rest);
      RoundTrip(items[i], cfg, off, tail + ("]" + rest));
      NormalItem(items, i);
      OneItem(items, i, normal[..i], Normal(items[i]), cfg, off, rest);
      ItemsTrip(items, i + 1, cfg, off + |text| + |Comma(i, |items|)|, rest);
    }
  }

  lemma NormalItem(items: seq<Attr>, i: nat)
    requires i < |items|
    ensures NormalItems(items)[..i] + [Normal(items[i])] == NormalItems(items)[..i + 1]
  {
    hide Normal;
    TakeNext(NormalItems(items), i);
  }

  lemma TailDelimited(i: nat, n: nat, more: string, close: string, rest: string)
    requires i < n && (i + 1 == n ==> more == "") && (close == "]" || close == "}")
    ensures Delimited(Comma(i, n) + more + (close + rest))
  {
  }

  lemma LastItem(items: seq<Attr>, cfg: string, off: nat, rest: string)
    requires Reads(cfg, off, "", "]" + rest) && Delimited(rest)
    ensures ParseItems(cfg, off, items) == Parsed(List(items), off + 1)
  {
    hide Skip, ParseValue;
    ReadsNext(cfg, off, "", "]" + rest);
    assert "" + ("]" + rest) == "]" + rest;
    SkipNone(cfg, off, "]", rest);
  }

  /** One round of the loop over list items. */
  lemma OneItem(items: seq<Attr>, i: nat, done: seq<Attr>, item: Attr, cfg: string, off: nat, rest: string)
    requires i < |items| && forall k | 0 <= k < |items| :: Valid(items[k])
    requires var tail := Comma(i, |items|) + PrintItems(items, i + 1);
      Reads(cfg, off, Print(items[i]), tail + ("]" + rest)) && Reads(cfg, off + |Print(items[i])|, tail, "]" + rest)
    requires ParseValue(cfg, off) == Parsed(item, off + |Print(items[i])|)
    ensures var next := off + |Print(items[i])| + |Comma(i, |items|)|;
      && ParseItems(cfg, off, done) == ParseItems(cfg, next, done + [item])
      && Reads(cfg, next, PrintItems(items, i + 1), "]" + rest)
  {
    hide Print, Skip, ParseValue, Reads, PrintItems;
    FirstAt(items[i], cfg, off, Comma(i, |items|) + PrintItems(items, i + 1) + ("]" + rest));
    AfterItem(items, i, cfg, off + |Print(items[i])|, rest);
  }

  /** Where the loop goes on after an item: behind the comma, or at the closing bracket. */
  lemma AfterItem(items: seq<Attr>, i: nat, cfg: string, next: nat, rest: string)
    requires i < |items| && forall k | 0 <= k < |items| :: Valid(items[k])
    requires Reads(cfg, next, Comma(i, |items|) + PrintItems(items, i + 1), "]" + rest)
    ensures var s := Skip(cfg, next);
      (if At(cfg, s) == ',' then Skip(cfg, s + 1) else s) == next + |Comma(i, |items|)|
    ensures Reads(cfg, next + |Comma(i, |items|)|, PrintItems(items, i + 1), "]" + rest)
  {
    hide Print, Skip;
    var more := PrintItems(items, i + 1);
    ReadsOn(cfg, next, Comma(i, |items|), more, "]" + rest);
    if i + 1 < |items| {
      ReadsAt(cfg, next, ",", more + ("]" + rest), 0);
      var text, tail := Print(items[i + 1]), Comma(i + 1, |items|) + PrintItems(items, i + 2);
      assert more == text + tail;
      ReadsOn(cfg, next + 1, text, tail, "]" + rest);
      FirstAt(items[i + 1], cfg, next + 1, tail + ("]" + rest));
      SkipPlain(cfg, next + 1);
    } else {
      ReadsNext(cfg, next, "", "]" + rest);
    }
    SkipPlain(cfg, next);
  }

  lemma ListTrip(items: seq<Attr>, cfg: string, off: nat, rest: string)
    requires Delimited(rest) && forall k | 0 <= k < |items| :: Valid(items[k]) && Printable(items[k])
    requires Reads(cfg, off, "[" + PrintItems(items, 0) + "]", rest)
    ensures ParseValue(cfg, off) == Parsed(List(NormalItems(items)), off + |PrintItems(items, 0)| + 2)
    decreases items, |items| + 1
  {
    hide Printable, Valid, PrintItems, NormalItems, Reads, ParseValue, ParseItems;
    OpenList(items, cfg, off, rest);
    ItemsTrip(items, 0, cfg, off + 1, rest);
    assert NormalItems(items)[..0] == [];
  }

  /** The opening bracket leads into the loop over the items. */
  lemma OpenList(items: seq<Attr>, cfg: string, off: nat, rest: string)
    requires forall k | 0 <= k < |items| :: Valid(items[k])
    requires Reads(cfg, off, "[" + PrintItems(items, 0) + "]", rest)
    ensures ParseValue(cfg, off) == ParseItems(cfg, off + 1, [])
    ensures Reads(cfg, off + 1, PrintItems(items, 0), "]" + rest)
  {
    hide Skip, PrintItems, ParseBytes, Reads, ParseItems, ParsePairs, ParseString, ParseNumber, Matches, Valid;
    var more := PrintItems(items, 0);
    assert "[" + more + "]" == "[" + (more + "]");
    ReadsOn(cfg, off, "[", more + "]", rest);
    ReadsAt(cfg, off, "[", more + "]" + rest, 0);
    ReadsOn(cfg, off + 1, more, "]", rest);
    SkipPlain(cfg, off);
    FirstOfItems(items, cfg, off + 1, rest);
    SkipPlain(cfg, off + 1);
  }

  lemma FirstOfItems(items: seq<Attr>, cfg: string, off: nat, rest: string)
    requires forall k | 0 <= k < |items| :: Valid(items[k])
    requires Reads(cfg, off, PrintItems(items, 0), "]" + rest)
    ensures !IsSpace(At(cfg, off))
  {
    hide Print, Reads, Valid;
    if |items| == 0 {
      ReadsNext(cfg, off, "", "]" + rest);
    } else {
      var text, tail := Print(items[0]), Comma(0, |items|) + PrintItems(items, 1);
      assert PrintItems(items, 0) == text + tail;
      ReadsOn(cfg, off, text, tail, "]" + rest);
      FirstAt(items[0], cfg, off, tail + ("]" + rest));
    }
  }

  /** string_to_attribute undoes attribute_to_string, for every printable tree, wherever its text
      stands and whatever delimiter follows. */
  lemma {:induction false} RoundTrip(a: Attr, cfg: string, off: nat, rest: string)
    requires Valid(a) && Printable(a) && Reads(cfg, off, Print(a), rest) && Delimited(rest)
    ensures ParseValue(cfg, off) == Parsed(Normal(a), off + |Print(a)|)
    decreases a
  {
    hide ParseValue, Reads, Delimited, Quotable, PrintItems, PrintPairs, PrintBytes, NormalItems, NormalPairs;
    hide HexDigits, Int, Word, FineEntries, DistinctKeys, PlainTypes, DictOutcome;
    match a
    case Nil => WordTrip(a, cfg, off, rest);
    case Bool(b) => WordTrip(a, cfg, off, rest);
    case Int64(i) =>
      SignedBits(i);
      NumberTrip(Word(i), cfg, off, rest);
    case UInt64(u) => NumberTrip(u, cfg, off, rest);
    case Str(s) => StringTrip(s, cfg, off, rest);
    case Data(bytes) => DataTrip(bytes, cfg, off, rest);
    case List(items) => ListTrip(items, cfg, off, rest);
    case Dict(pairs) =>
      DictPairs(pairs);
      DictTrip(pairs, cfg, off, rest);
      OutcomeSurvives(pairs, off + |Print(a)|);
  }

  lemma SignedBits(i: int)
    requires -0x8000_0000_0000_0000 <= i < 0x8000_0000_0000_0000
    ensures Int(Word(i)) == i && Word(i) < 0x1_0000_0000_0000_0000
  {
  }

  lemma DictPairs(pairs: seq<Pair>)
    requires Valid(Dict(pairs))
    ensures Printable(Dict(pairs)) ==> FineEntries(pairs)
    ensures FineEntries(pairs) ==> (Printable(Dict(pairs)) <==> DistinctKeys(pairs) && PlainTypes(pairs))
  {
    hide Quotable;
  }

  lemma DataTrip(bytes: seq<nat>, cfg: string, off: nat, rest: string)
    requires Delimited(rest) && forall k | 0 <= k < |bytes| :: bytes[k] < 256
    requires Reads(cfg, off, "(" + PrintBytes(bytes, 0) + ")", rest)
    ensures ParseValue(cfg, off) == Parsed(Data(bytes), off + |PrintBytes(bytes, 0)| + 2)
  {
    hide Skip, PrintBytes, ParseBytes, Reads, ParseItems, ParsePairs, ParseString, ParseNumber, Matches;
    var more := PrintBytes(bytes, 0);
    assert "(" + more + ")" == "(" + (more + ")");
    ReadsOn(cfg, off, "(", more + ")", rest);
    ReadsAt(cfg, off, "(", more + ")" + rest, 0);
    ReadsOn(cfg, off + 1, more, ")", rest);
    SkipPlain(cfg, off);
    BytesFrom(bytes, cfg, off + 1, rest);
  }

  lemma BytesFrom(bytes: seq<nat>, cfg: string, off: nat, rest: string)
    requires Delimited(rest) && forall k | 0 <= k < |bytes| :: bytes[k] < 256
    requires Reads(cfg, off, PrintBytes(bytes, 0), ")" + rest)
    ensures Skip(cfg, off) == off
    ensures ParseBytes(cfg, off, []) == Parsed(Data(bytes), off + |PrintBytes(bytes, 0)| + 1)
  {
    hide HexByte, Reads, Skip, Delimited;
    if bytes == [] {
      LastByte(cfg, off, rest);
    } else {
      HexByteLength(bytes[0]);
      ReadsAt(cfg, off, PrintBytes(bytes, 0), ")" + rest, 0);
      SkipPlain(cfg, off);
      BytesTrip(bytes, 0, cfg, off, rest);
      assert bytes[..0] == [];
    }
  }

  // ------------------------------------------------------------------ dictionaries

  lemma {:induction false} PutNew(pairs: seq<Pair>, key: string, value: Attr)
    requires forall k | 0 <= k < |pairs| :: pairs[k].key != key
    ensures Put(pairs, key, value) == pairs + [Pair(key, value)]
  {
    if pairs != [] {
      PutNew(pairs[1..], key, value);
      assert pairs == [pairs[0]] + pairs[1..];
    }
  }

  /** Entries whose keys and values come back one by one. */
  ghost predicate FineEntries(pairs: seq<Pair>)
  {
    forall k | 0 <= k < |pairs| :: Valid(pairs[k].value) && Quotable(pairs[k].key) && Printable(pairs[k].value)
  }

  ghost predicate DistinctKeys(pairs: seq<Pair>) {
    forall j, k | 0 <= j < k < |pairs| :: pairs[j].key != pairs[k].key
  }

  ghost predicate PlainTypes(pairs: seq<Pair>) {
    forall k | 0 <= k < |pairs| :: pairs[k].key == "Type" ==> PlainType(pairs[k].value)
  }

  /** With distinct keys, the Type entry is followed up exactly when it is not plain. */
  lemma TypeEntry(pairs: seq<Pair>)
    requires DistinctKeys(pairs)
    ensures Resolved(NormalPairs(pairs)) <==> !PlainTypes(pairs)
  {
    hide Normal, Get, PlainType;
    var normal := NormalPairs(pairs);
    forall k | 0 <= k < |pairs| && pairs[k].key == "Type"
      ensures Get(normal, "Type") == Normal(pairs[k].value)
      ensures PlainType(pairs[k].value) <==> !Resolved(normal)
    {
      GetAt(normal, "Type", k);
      assert normal[k].value == Normal(pairs[k].value);
      TypeValue(pairs[k].value);
      TypeAt(normal, k);
    }
    if Resolved(normal) {
      var k :| 0 <= k < |normal| && normal[k].key == "Type" && normal[k].value != Nil;
      assert pairs[k].key == "Type";
    }
  }

  lemma {:induction false} GetAt(pairs: seq<Pair>, key: string, k: nat)
    requires k < |pairs| && pairs[k].key == key && forall j | 0 <= j < k :: pairs[j].key != key
    ensures Get(pairs, key) == pairs[k].value
  {
    if k > 0 { GetAt(pairs[1..], key, k - 1); }
  }

  /** The one entry with key Type decides. */
  lemma TypeAt(pairs: seq<Pair>, k: nat)
    requires k < |pairs| && pairs[k].key == "Type" && Get(pairs, "Type") == pairs[k].value
    requires forall j | 0 <= j < |pairs| && j != k :: pairs[j].key != "Type"
    ensures Resolved(pairs) <==> !PlainType(pairs[k].value)
  {
    hide Get;
  }

  lemma TypeValue(a: Attr)
    ensures PlainType(Normal(a)) <==> PlainType(a)
  {
  }

  /** The entries put into an empty dictionary, one after another. */
  ghost function Fold(pairs: seq<Pair>): (r: seq<Pair>) {
    if pairs == [] then []
    else
      var n := |pairs| - 1;
      Put(Fold(pairs[..n]), pairs[n].key, pairs[n].value)
  }

  /** Putting into a dictionary adds an entry exactly when the key is new. */
  lemma {:induction false} PutCounts(pairs: seq<Pair>, key: string, value: Attr)
    ensures |Put(pairs, key, value)| == |pairs| + if exists k | 0 <= k < |pairs| :: pairs[k].key == key then 0 else 1
    ensures forall x :: HasEntry(Put(pairs, key, value), x) <==> x == key || HasEntry(pairs, x)
  {
    if pairs != [] {
      var head, rest := pairs[0], pairs[1..];
      assert pairs == [head] + rest;
      PutCounts(rest, key, value);
      EntryCons(head, rest);
      EntryCons(Pair(key, value), rest);
      EntryCons(head, Put(rest, key, value));
      assert HasEntry(pairs, key) <==> head.key == key || HasEntry(rest, key);
    } else {
      EntryCons(Pair(key, value), []);
      assert [Pair(key, value)] + [] == [Pair(key, value)];
    }
  }

  ghost predicate HasEntry(pairs: seq<Pair>, key: string) {
    exists k | 0 <= k < |pairs| :: pairs[k].key == key
  }

  lemma EntryCons(p: Pair, rest: seq<Pair>)
    ensures forall x :: HasEntry([p] + rest, x) <==> x == p.key || HasEntry(rest, x)
  {
    forall x | x == p.key || HasEntry(rest, x) ensures HasEntry([p] + rest, x) {
      if x == p.key { assert ([p] + rest)[0].key == x; }
      else { var k :| 0 <= k < |rest| && rest[k].key == x; assert ([p] + rest)[k + 1].key == x; }
    }
  }

  /** Distinct keys fold to the entries themselves; a repeated key makes the dictionary shorter. */
  lemma {:induction false} FoldKeeps(pairs: seq<Pair>)
    ensures |Fold(pairs)| <= |pairs| && forall x :: HasEntry(Fold(pairs), x) <==> HasEntry(pairs, x)
    ensures DistinctKeys(pairs) <==> |Fold(pairs)| == |pairs|
    ensures DistinctKeys(pairs) <==> Fold(pairs) == pairs
  {
    if pairs != [] {
      var n := |pairs| - 1;
      var before, p := pairs[..n], pairs[n];
      FoldKeeps(before);
      PutCounts(Fold(before), p.key, p.value);
      assert pairs == before + [p];
      EntrySnoc(before, p);
      DistinctSnoc(before, p);
      if DistinctKeys(pairs) { PutNew(before, p.key, p.value); }
    }
  }

  /** Of several entries with one key, the last one counts. */
  lemma {:induction false} FoldLast(pairs: seq<Pair>, k: nat)
    requires k < |pairs| && forall j | k < j < |pairs| :: pairs[j].key != pairs[k].key
    ensures Get(Fold(pairs), pairs[k].key) == pairs[k].value
    decreases |pairs|
  {
    var n := |pairs| - 1;
    PutGet(Fold(pairs[..n]), pairs[n].key, pairs[n].value, pairs[k].key);
    if k < n { FoldLast(pairs[..n], k); }
  }

  /** Putting sets the value of one key and keeps the values of the others and the order of the keys. */
  lemma {:induction false} PutGet(pairs: seq<Pair>, key: string, value: Attr, x: string)
    ensures Get(Put(pairs, key, value), x) == if x == key then value else Get(pairs, x)
    ensures |Put(pairs, key, value)| >= |pairs|
    ensures forall k | 0 <= k < |pairs| :: Put(pairs, key, value)[k].key == pairs[k].key
  {
    if pairs != [] { PutGet(pairs[1..], key, value, x); }
  }

  lemma FoldNext(pairs: seq<Pair>, p: Pair)
    ensures Fold(pairs + [p]) == Put(Fold(pairs), p.key, p.value)
  {
    assert (pairs + [p])[..|pairs|] == pairs;
  }

  lemma NormalKeys(pairs: seq<Pair>)
    ensures DistinctKeys(NormalPairs(pairs)) <==> DistinctKeys(pairs)
  {
    hide Normal;
    var normal := NormalPairs(pairs);
    forall k | 0 <= k < |pairs| ensures normal[k].key == pairs[k].key {}
  }

  lemma EntrySnoc(pairs: seq<Pair>, p: Pair)
    ensures forall x :: HasEntry(pairs + [p], x) <==> x == p.key || HasEntry(pairs, x)
  {
    forall x | x == p.key || HasEntry(pairs, x) ensures HasEntry(pairs + [p], x) {
      if x == p.key { assert (pairs + [p])[|pairs|].key == x; }
      else { var k :| 0 <= k < |pairs| && pairs[k].key == x; assert (pairs + [p])[k].key == x; }
    }
  }

  lemma DistinctSnoc(pairs: seq<Pair>, p: Pair)
    ensures DistinctKeys(pairs + [p]) <==> DistinctKeys(pairs) && !HasEntry(pairs, p.key)
  {
    var more := pairs + [p];
    if DistinctKeys(more) {
      forall j, k | 0 <= j < k < |pairs| ensures pairs[j].key != pairs[k].key { assert more[j].key != more[k].key; }
      forall k | 0 <= k < |pairs| ensures pairs[k].key != p.key { assert more[k].key != more[|pairs|].key; }
    }
  }

  /** The text of one entry and what follows it. */
  function PairHead(p: Pair): string {
    "\"" + p.key + "\":"
  }

  /** The outcome of the loop over entries that come back one by one. */
  ghost function DictOutcome(pairs: seq<Pair>, off: nat): ParseResult {
    var read := Fold(NormalPairs(pairs));
    if Resolved(read) then Unmodelled else Parsed(Dict(read), off)
  }

  lemma {:induction false} PairsTrip(pairs: seq<Pair>, i: nat, cfg: string, off: nat, rest: string)
    requires i <= |pairs| && Delimited(rest) && FineEntries(pairs)
    requires Reads(cfg, off, PrintPairs(pairs, i), "}" + rest)
    ensures ParsePairs(cfg, off, Fold(NormalPairs(pairs)[..i])) == DictOutcome(pairs, off + |PrintPairs(pairs, i)| + 1)
    decreases pairs, |pairs| - i
  {
    hide Print, Skip, ParseValue, Normal, Resolved, Put, Reads, ParsePairs, Delimited, PairHead, Fold;
    hide Valid, Printable, Quotable;
    if i == |pairs| {
      assert NormalPairs(pairs)[..i] == NormalPairs(pairs);
      LastPair(Fold(NormalPairs(pairs)), cfg, off, rest);
    } else {
      var p, tail := pairs[i], Comma(i, |pairs|) + PrintPairs(pairs, i + 1);
      var head, text := PairHead(p), Print(p.value);
      PairText(pairs, i);
      ReadsOn(cfg, off, head, text + tail, "}" + rest);
      ReadsOn(cfg, off + |head|, text, tail, "}" + rest);
      TailDelimited(i, |pairs|, PrintPairs(pairs, i + 1), "}", rest);
      RoundTrip(p.value, cfg, off + |head|, tail + ("}" + rest));
      OnePair(pairs, i, Fold(NormalPairs(pairs)[..i]), Normal(p.value), cfg, off, rest);
      TakeNext(NormalPairs(pairs), i);
      FoldNext(NormalPairs(pairs)[..i], NormalPairs(pairs)[i]);
      PairsTrip(pairs, i + 1, cfg, off + |head| + |text| + |Comma(i, |pairs|)|, rest);
    }
  }

  lemma PairText(pairs: seq<Pair>, i: nat)
    requires i < |pairs| && forall k | 0 <= k < |pairs| :: Valid(pairs[k].value)
    ensures PrintPairs(pairs, i) ==
      PairHead(pairs[i]) + (Print(pairs[i].value) + (Comma(i, |pairs|) + PrintPairs(pairs, i + 1)))
  {
    hide Print;
  }

  lemma TakeNext<T>(s: seq<T>, i: nat)
    requires i < |s|
    ensures s[..i] + [s[i]] == s[..i + 1]
  {
  }

  lemma LastPair(pairs: seq<Pair>, cfg: string, off: nat, rest: string)
    requires Reads(cfg, off, "", "}" + rest) && Delimited(rest)
    ensures ParsePairs(cfg, off, pairs) == if Resolved(pairs) then Unmodelled else Parsed(Dict(pairs), off + 1)
  {
    hide Skip, ParseValue, Resolved;
    ReadsNext(cfg, off, "", "}" + rest);
    assert "" + ("}" + rest) == "}" + rest;
    SkipNone(cfg, off, "}", rest);
  }

  /** One round of the loop over dictionary entries. */
  lemma OnePair(pairs: seq<Pair>, i: nat, done: seq<Pair>, item: Attr, cfg: string, off: nat, rest: string)
    requires i < |pairs| && (forall k | 0 <= k < |pairs| :: Valid(pairs[k].value)) && Quotable(pairs[i].key)
    requires var p, tail := pairs[i], Comma(i, |pairs|) + PrintPairs(pairs, i + 1);
      var value := off + |PairHead(p)|;
      && Reads(cfg, off, PairHead(p), Print(p.value) + tail + ("}" + rest))
      && Reads(cfg, value, Print(p.value), tail + ("}" + rest))
      && Reads(cfg, value + |Print(p.value)|, tail, "}" + rest)
      && ParseValue(cfg, value) == Parsed(item, value + |Print(p.value)|)
    ensures var next := off + |PairHead(pairs[i])| + |Print(pairs[i].value)| + |Comma(i, |pairs|)|;
      && ParsePairs(cfg, off, done) == ParsePairs(cfg, next, Put(done, pairs[i].key, item))
      && Reads(cfg, next, PrintPairs(pairs, i + 1), "}" + rest)
  {
    hide Print, Skip, ParseValue, Reads, PrintPairs, Resolved, Put, PairHead, Quotable;
    var p, tail := pairs[i], Comma(i, |pairs|) + PrintPairs(pairs, i + 1);
    var value := off + |PairHead(p)|;
    FirstChar(p.value);
    FirstAt(p.value, cfg, value, tail + ("}" + rest));
    KeyTrip(p, cfg, off, Print(p.value) + tail + ("}" + rest));
    AfterPair(pairs, i, cfg, value + |Print(p.value)|, rest);
  }

  /** A quoted key and its colon. */
  lemma KeyTrip(p: Pair, cfg: string, off: nat, rest: string)
    requires Quotable(p.key) && Reads(cfg, off, PairHead(p), rest) && rest != "" && !IsSpace(rest[0])
    ensures At(cfg, off) == '"' && ParseValue(cfg, off) == Parsed(Str(p.key), off + 2 + |p.key|)
    ensures Skip(cfg, off + 2 + |p.key|) == off + 2 + |p.key| && At(cfg, off + 2 + |p.key|) == ':'
    ensures Skip(cfg, off + |PairHead(p)|) == off + |PairHead(p)| && |PairHead(p)| == |p.key| + 3
  {
    hide Skip, ParseValue;
    var quoted := "\"" + p.key + "\"";
    assert PairHead(p) == quoted + ":";
    ReadsNext(cfg, off, PairHead(p), rest);
    ReadsOn(cfg, off, quoted, ":", rest);
    ReadsAt(cfg, off, quoted, ":" + rest, 0);
    ReadsAt(cfg, off + |quoted|, ":", rest, 0);
    StringTrip(p.key, cfg, off, ":" + rest);
    SkipPlain(cfg, off + |quoted|);
    SkipPlain(cfg, off + |PairHead(p)|);
  }

  lemma AfterPair(pairs: seq<Pair>, i: nat, cfg: string, next: nat, rest: string)
    requires i < |pairs| && forall k | 0 <= k < |pairs| :: Valid(pairs[k].value)
    requires Reads(cfg, next, Comma(i, |pairs|) + PrintPairs(pairs, i + 1), "}" + rest)
    ensures var s := Skip(cfg, next);
      (if At(cfg, s) == ',' then Skip(cfg, s + 1) else s) == next + |Comma(i, |pairs|)|
    ensures Reads(cfg, next + |Comma(i, |pairs|)|, PrintPairs(pairs, i + 1), "}" + rest)
  {
    hide Print, Skip;
    var more := PrintPairs(pairs, i + 1);
    ReadsOn(cfg, next, Comma(i, |pairs|), more, "}" + rest);
    if i + 1 < |pairs| {
      ReadsAt(cfg, next, ",", more + ("}" + rest), 0);
      ReadsAt(cfg, next + 1, more, "}" + rest, 0);
      SkipPlain(cfg, next + 1);
    } else {
      ReadsNext(cfg, next, "", "}" + rest);
    }
    SkipPlain(cfg, next);
  }

  lemma DictTrip(pairs: seq<Pair>, cfg: string, off: nat, rest: string)
    requires Delimited(rest) && FineEntries(pairs)
    requires Reads(cfg, off, "{" + PrintPairs(pairs, 0) + "}", rest)
    ensures ParseValue(cfg, off) == DictOutcome(pairs, off + |PrintPairs(pairs, 0)| + 2)
    decreases pairs, |pairs| + 1
  {
    hide Valid, Printable, Quotable, PrintPairs, Resolved, NormalPairs, ParseValue, ParsePairs, Reads, Delimited, Skip;
    assert NormalPairs(pairs)[..0] == [];
    assert Fold([]) == [];
    hide Fold, DictOutcome;
    OpenDict(pairs, cfg, off, rest);
    PairsTrip(pairs, 0, cfg, off + 1, rest);
  }

  /** The opening brace leads into the loop over the entries. */
  lemma OpenDict(pairs: seq<Pair>, cfg: string, off: nat, rest: string)
    requires forall k | 0 <= k < |pairs| :: Valid(pairs[k].value)
    requires Reads(cfg, off, "{" + PrintPairs(pairs, 0) + "}", rest)
    ensures ParseValue(cfg, off) == ParsePairs(cfg, off + 1, [])
    ensures Reads(cfg, off + 1, PrintPairs(pairs, 0), "}" + rest)
  {
    hide Skip, PrintPairs, ParseBytes, Reads, ParseItems, ParsePairs, ParseString, ParseNumber, Matches, Valid;
    var more := PrintPairs(pairs, 0);
    assert "{" + more + "}" == "{" + (more + "}");
    ReadsOn(cfg, off, "{", more + "}", rest);
    ReadsAt(cfg, off, "{", more + "}" + rest, 0);
    ReadsOn(cfg, off + 1, more, "}", rest);
    SkipPlain(cfg, off);
    FirstOfPairs(pairs, cfg, off + 1, rest);
    SkipPlain(cfg, off + 1);
  }

  /** The loop ends with the entries themselves exactly when no key is repeated and every Type entry is
      plain. */
  lemma OutcomeSurvives(pairs: seq<Pair>, off: nat)
    ensures DictOutcome(pairs, off) == Parsed(Dict(NormalPairs(pairs)), off) <==>
      DistinctKeys(pairs) && PlainTypes(pairs)
    ensures !(DistinctKeys(pairs) && PlainTypes(pairs)) ==>
      var r := DictOutcome(pairs, off); !(r.Parsed? && r.value == Dict(NormalPairs(pairs)))
  {
    hide Resolved, PlainTypes, Fold, DistinctKeys, NormalPairs;
    FoldKeeps(NormalPairs(pairs));
    NormalKeys(pairs);
    if DistinctKeys(pairs) { TypeEntry(pairs); }
  }

  lemma FirstOfPairs(pairs: seq<Pair>, cfg: string, off: nat, rest: string)
    requires forall k | 0 <= k < |pairs| :: Valid(pairs[k].value)
    requires Reads(cfg, off, PrintPairs(pairs, 0), "}" + rest)
    ensures !IsSpace(At(cfg, off))
  {
    hide Print, Reads, Valid;
    if |pairs| == 0 {
      ReadsNext(cfg, off, "", "}" + rest);
    } else {
      ReadsAt(cfg, off, PrintPairs(pairs, 0), "}" + rest, 0);
    }
  }

  /** A string comes back from its quoted text exactly when it has no double quote, no NUL and fewer
      than 1024 characters. */
  lemma StringSurvives(s: string)
    ensures ParseValue("\"" + s + "\"", 0) == Parsed(Str(s), |s| + 2) <==> Quotable(s)
  {
    var cfg := "\"" + s + "\"";
    hide *;
    WholeText(cfg);
    if Quotable(s) { StringTrip(s, cfg, 0, ""); } else { BadString(s, cfg, 0, ""); }
  }

  lemma {:induction false} QuoteStops(cfg: string, off: nat, quote: char)
    requires off <= |cfg|
    ensures QuoteEnd(cfg, off, quote) <= |cfg|
    ensures forall k | off <= k < QuoteEnd(cfg, off, quote) :: At(cfg, k) != quote && At(cfg, k) != '\0'
    decreases |cfg| - off
  {
    if At(cfg, off) != quote && At(cfg, off) != '\0' { QuoteStops(cfg, off + 1, quote); }
  }

  /** The whole text of a printable tree: parsing it consumes everything and gives the tree back. */
  lemma PrintParse(a: Attr)
    requires Valid(a) && Printable(a)
    ensures ParseValue(Print(a), 0) == Parsed(Normal(a), |Print(a)|)
  {
    assert Print(a)[0..] == Print(a) + "";
    RoundTrip(a, Print(a), 0, "");
  }

  /** A string that is not quotable is cut short, rejected or too long for the buffer. */
  lemma BadString(s: string, cfg: string, off: nat, rest: string)
    requires !Quotable(s) && Reads(cfg, off, "\"" + s + "\"", rest)
    ensures var r := ParseValue(cfg, off); !(r.Parsed? && r.value == Str(s))
  {
    hide Quotable;
    ReadsAt(cfg, off, "\"" + s + "\"", rest, 0);
    SkipPlain(cfg, off);
    var end := QuoteEnd(cfg, off + 1, '"');
    hide QuoteEnd, Skip, ParseItems, ParsePairs, ParseBytes, ParseNumber, Matches;
    QuoteStops(cfg, off + 1, '"');
    var r := ParseValue(cfg, off);
    if r.Parsed? && end - (off + 1) < 1024 { Bounded(s, cfg, off + 1, end); }
  }

  lemma Bounded(s: string, cfg: string, from: nat, end: nat)
    requires from <= end <= |cfg| && end - from < 1024 && !Quotable(s)
    requires forall k | from <= k < end :: At(cfg, k) != '"' && At(cfg, k) != '\0'
    ensures cfg[from..end] != s
  {
    if cfg[from..end] == s {
      forall k | 0 <= k < |s| ensures s[k] != '"' && s[k] != '\0' { assert s[k] == At(cfg, from + k); }
      assert Quotable(s);
    }
  }

  lemma WholeText(text: string)
    ensures Reads(text, 0, text, "") && Delimited("")
  {
    assert text[0..] == text + "";
  }
}
