/** A document as somebody may write it, and what it means: the parser reads it so. */
module AttributeDocument {
  import opened Attribute
  import opened AttributeParse
  import opened AttributeRoundTrip
  import opened AttributeSyntax

  // ------------------------------------------------------------------ documents

  /** A value with everything the writer may choose: spelling, base, quote, blanks, a comma at the end. */
  datatype Doc =
    | Keyword(word: string)
    | Number(negative: bool, digits: string)
    | Hex(digits: string)
    | Quoted(quote: char, text: string)
    | Items(lead: string, items: seq<Item>)
    | Entries(lead: string, entries: seq<Entry>)
    | Bytes(lead: string, bytes: seq<ByteText>)

  /** What follows an element: blanks, and a comma with more blanks. */
  datatype Tail = Tail(blanks: string, comma: bool, gap: string)

  datatype Item = Item(value: Doc, blanks: string, comma: bool, gap: string) {
    function Rest(): Tail { Tail(blanks, comma, gap) }
  }

  datatype Entry = Entry(quote: char, key: string, afterKey: string, beforeValue: string, value: Doc, tail: Tail)

  datatype ByteText = ByteText(prefix: bool, high: char, low: char, tail: Tail)

  function TailText(t: Tail): string {
    t.blanks + if t.comma then "," + t.gap else ""
  }

  function Text(d: Doc): string
    decreases d
  {
    match d
    case Keyword(word) => word
    case Number(negative, digits) => (if negative then "-" else "") + digits
    case Hex(digits) => "0x" + digits
    case Quoted(quote, text) => [quote] + text + [quote]
    case Items(lead, items) => "[" + (lead + ItemsText(items, 0)) + "]"
    case Entries(lead, entries) => "{" + (lead + EntriesText(entries, 0)) + "}"
    case Bytes(lead, bytes) => "(" + (lead + BytesText(bytes, 0)) + ")"
  }

  function ItemsText(items: seq<Item>, i: nat): string
    requires i <= |items|
    decreases items, |items| - i
  {
    if i == |items| then "" else Text(items[i].value) + (TailText(items[i].Rest()) + ItemsText(items, i + 1))
  }

  function EntryHead(e: Entry): string {
    [e.quote] + e.key + [e.quote] + (e.afterKey + (":" + e.beforeValue))
  }

  function EntriesText(entries: seq<Entry>, i: nat): string
    requires i <= |entries|
    decreases entries, |entries| - i
  {
    if i == |entries| then ""
    else EntryHead(entries[i]) + (Text(entries[i].value) + (TailText(entries[i].tail) + EntriesText(entries, i + 1)))
  }

  function ByteHead(b: ByteText): string {
    (if b.prefix then "0x" else "") + [b.high, b.low]
  }

  function BytesText(bytes: seq<ByteText>, i: nat): string
    requires i <= |bytes|
    decreases |bytes| - i
  {
    if i == |bytes| then "" else ByteHead(bytes[i]) + (TailText(bytes[i].tail) + BytesText(bytes, i + 1))
  }

  // ------------------------------------------------------------------ well-formed documents

  /** A comma stands between any two elements. */
  ghost predicate GoodTail(t: Tail, last: bool) {
    Blank(t.blanks) && Blank(t.gap) && (!last ==> t.comma)
  }

  ghost predicate GoodQuote(quote: char, text: string) {
    && (quote == '"' || quote == '\'') && |text| < 1024
    && forall k | 0 <= k < |text| :: text[k] != quote && text[k] != '\0'
  }

  ghost predicate GoodByte(b: ByteText) {
    Weight(b.high) < 16 && Weight(b.low) < 16
  }

  ghost predicate Good(d: Doc)
    decreases d
  {
    match d
    case Keyword(word) => word == "None" || word == "True" || word == "true" || word == "False" || word == "false"
    case Number(_, digits) => 1 <= |digits| <= 63 && Digits(digits, if digits[0] == '0' then 8 else 10)
    case Hex(digits) => 1 <= |digits| <= 61 && Digits(digits, 16)
    case Quoted(quote, text) => GoodQuote(quote, text)
    case Items(lead, items) =>
      && Blank(lead)
      && forall k | 0 <= k < |items| :: Good(items[k].value) && GoodTail(items[k].Rest(), k + 1 == |items|)
    case Entries(lead, entries) =>
      && Blank(lead) && !Resolved(Fold(PairsOf(entries)))
      && forall k | 0 <= k < |entries| ::
           && GoodQuote(entries[k].quote, entries[k].key) && Blank(entries[k].afterKey) && Blank(entries[k].beforeValue)
           && Good(entries[k].value) && GoodTail(entries[k].tail, k + 1 == |entries|)
    case Bytes(lead, bytes) =>
      && Blank(lead)
      && forall k | 0 <= k < |bytes| :: GoodByte(bytes[k]) && GoodTail(bytes[k].tail, k + 1 == |bytes|)
  }

  // ------------------------------------------------------------------ meaning

  /** The value of a document: numbers in 64 bits, and of entries with one key the last. */
  ghost function Meaning(d: Doc): Attr
    decreases d
  {
    match d
    case Keyword(word) =>
      if word == "True" || word == "true" then Bool(true)
      else if word == "False" || word == "false" then Bool(false)
      else Nil
    case Number(negative, digits) =>
      var v := Clamp(Positional(digits, if digits != "" && digits[0] == '0' then 8 else 10));
      Int64(Int(AttributeSyntax.Signed(negative, v)))
    case Hex(digits) => Int64(Int(Clamp(Positional(digits, 16))))
    case Quoted(_, text) => Str(text)
    case Items(_, items) => List(ValuesOf(items))
    case Entries(_, entries) => Dict(Fold(PairsOf(entries)))
    case Bytes(_, bytes) => Data(DataOf(bytes))
  }

  function ByteOf(b: ByteText): nat {
    16 * Weight(b.high) + Weight(b.low)
  }

  ghost function ValuesOf(items: seq<Item>): (r: seq<Attr>)
    ensures |r| == |items|
    decreases items
  {
    seq(|items|, k requires 0 <= k < |items| => Meaning(items[k].value))
  }

  ghost function PairsOf(entries: seq<Entry>): (r: seq<Pair>)
    ensures |r| == |entries|
    decreases entries
  {
    seq(|entries|, k requires 0 <= k < |entries| => Pair(entries[k].key, Meaning(entries[k].value)))
  }

  // ------------------------------------------------------------------ leaves

  lemma KeywordReads(word: string, blanks: string, cfg: string, off: nat, rest: string)
    requires Good(Keyword(word)) && Blank(blanks) && Stops(rest) && Reads(cfg, off, word, blanks + rest)
    ensures ParseValue(cfg, off) == Parsed(Meaning(Keyword(word)), off + |word| + |blanks|)
  {
    hide Blank, Stops, ParseString, ParseItems, ParsePairs, ParseBytes, ParseNumber;
    forall k: nat | k < |word| ensures At(cfg, off + k) == word[k] { ReadsAt(cfg, off, word, blanks + rest, k); }
    assert At(cfg, off + 0) == word[0];
    SkipPlain(cfg, off);
    SkipAfter(cfg, off, word, blanks, rest);
    hide Skip, Reads;
    if word == "None" {
      assert Matches(cfg, off, "None");
    } else {
      assert !Matches(cfg, off, "None") by { assert At(cfg, off + 0) != "None"[0]; }
      if word == "True" || word == "true" {
        assert Matches(cfg, off + 1, "rue");
      } else {
        assert Matches(cfg, off + 1, "alse");
      }
    }
  }

  lemma {:induction false} QuotedRun(cfg: string, off: nat, s: string, quote: char, rest: string)
    requires Reads(cfg, off, s, rest) && rest != "" && rest[0] == quote
    requires forall k | 0 <= k < |s| :: s[k] != quote && s[k] != '\0'
    ensures QuoteEnd(cfg, off, quote) == off + |s|
    decreases |s|
  {
    if s == "" {
      ReadsNext(cfg, off, s, rest);
    } else {
      ReadsAt(cfg, off, s, rest, 0);
      assert s == [s[0]] + s[1..];
      ReadsOn(cfg, off, [s[0]], s[1..], rest);
      QuotedRun(cfg, off + 1, s[1..], quote, rest);
    }
  }

  lemma QuotedReads(quote: char, s: string, blanks: string, cfg: string, off: nat, rest: string)
    requires GoodQuote(quote, s) && Blank(blanks) && Stops(rest)
    requires Reads(cfg, off, [quote] + s + [quote], blanks + rest)
    ensures At(cfg, off) == quote && ParseValue(cfg, off) == Parsed(Str(s), off + 2 + |s| + |blanks|)
  {
    assert quote == '"' || quote == '\'';
    assert |s| < 1024;
    hide *;
    QuotedText(quote, s, blanks, cfg, off, rest);
    QuoteOpens(cfg, off);
    hide ParseValue;
    StringAt(cfg, off, s, off + 2 + |s| + |blanks|);
  }

  /** Where a quoted string ends and what follows. */
  lemma QuotedText(quote: char, s: string, blanks: string, cfg: string, off: nat, rest: string)
    requires GoodQuote(quote, s) && Blank(blanks) && Stops(rest)
    requires Reads(cfg, off, [quote] + s + [quote], blanks + rest)
    ensures At(cfg, off) == quote && At(cfg, off + 1 + |s|) == quote && QuoteEnd(cfg, off + 1, quote) == off + 1 + |s|
    ensures off + 1 + |s| <= |cfg| && cfg[off + 1..off + 1 + |s|] == s
    ensures Skip(cfg, off + 2 + |s|) == off + 2 + |s| + |blanks|
  {
    hide Blank, Stops, Reads, Skip, QuoteEnd;
    var q := [quote];
    ThreeParts(q, s, q, cfg, off, blanks + rest);
    ReadsAt(cfg, off, q, s + (q + (blanks + rest)), 0);
    QuotedRun(cfg, off + 1, s, quote, q + (blanks + rest));
    ReadsNext(cfg, off + 1, s, q + (blanks + rest));
    SkipAfter(cfg, off + 1 + |s|, q, blanks, rest);
  }

  lemma ThreeParts(a: string, b: string, c: string, cfg: string, off: nat, rest: string)
    requires Reads(cfg, off, a + b + c, rest)
    ensures Reads(cfg, off, a, b + (c + rest)) && Reads(cfg, off + |a|, b, c + rest)
    ensures Reads(cfg, off + |a| + |b|, c, rest)
  {
    hide Reads;
    assert a + b + c == a + (b + c);
    ReadsOn(cfg, off, a, b + c, rest);
    ReadsOn(cfg, off + |a|, b, c, rest);
    assert b + c + rest == b + (c + rest);
  }

  lemma QuoteOpens(cfg: string, off: nat)
    requires At(cfg, off) == '"' || At(cfg, off) == '\''
    ensures ParseValue(cfg, off) == ParseString(cfg, off)
  {
    SkipPlain(cfg, off);
    hide Skip, ParseString, ParseItems, ParsePairs, ParseBytes, ParseNumber, Matches;
  }

  lemma StringAt(cfg: string, off: nat, s: string, next: nat)
    requires (At(cfg, off) == '"' || At(cfg, off) == '\'') && |s| < 1024
    requires QuoteEnd(cfg, off + 1, At(cfg, off)) == off + 1 + |s| <= |cfg| && cfg[off + 1..off + 1 + |s|] == s
    requires At(cfg, off + 1 + |s|) == At(cfg, off) && Skip(cfg, off + 2 + |s|) == next
    ensures ParseString(cfg, off) == Parsed(Str(s), next)
  {
    hide QuoteEnd, Skip;
  }

  // ------------------------------------------------------------------ what follows an element

  /** A delimiter is no blank. */
  lemma DelimitedStops(rest: string)
    requires Delimited(rest)
    ensures Stops(rest)
    ensures forall blanks: string | Blank(blanks) :: NumberEnds(blanks + rest)
  {
    forall blanks: string | Blank(blanks) ensures NumberEnds(blanks + rest) {
      if blanks + rest != "" { assert (blanks + rest)[0] == if blanks == "" then rest[0] else blanks[0]; }
    }
  }

  /** The text behind an element: its blanks, and then a delimiter. */
  lemma TailDelimits(t: Tail, last: bool, more: string, close: string, rest: string) returns (stop: string)
    requires GoodTail(t, last) && (last ==> more == "") && (close == "]" || close == "}" || close == ")")
    ensures Blank(t.blanks) && Blank(t.gap)
    ensures TailText(t) + more + (close + rest) == t.blanks + stop && Delimited(stop)
    ensures stop == (if t.comma then "," + t.gap else "") + (more + (close + rest))
    ensures stop != "" && stop[0] == if t.comma then ',' else close[0]
  {
    hide Blank;
    stop := (if t.comma then "," + t.gap else "") + (more + (close + rest));
  }

  /** The parser behind an element: past the blanks, and past a comma and its blanks. */
  lemma AfterTail(t: Tail, last: bool, more: string, close: string, cfg: string, off: nat, rest: string)
    requires GoodTail(t, last) && (last ==> more == "") && (close == "]" || close == "}" || close == ")")
    requires Stops(more + (close + rest)) && Reads(cfg, off, TailText(t) + more, close + rest)
    ensures var next := off + |t.blanks|;
      && Skip(cfg, off) == next && Skip(cfg, next) == next && At(cfg, next) == (if t.comma then ',' else close[0])
      && (t.comma ==> Skip(cfg, next + 1) == off + |TailText(t)|) && (!t.comma ==> next == off + |TailText(t)|)
    ensures Reads(cfg, off + |TailText(t)|, more, close + rest)
  {
    hide Skip, Blank, Stops, Delimited, Reads, TailText, GoodTail;
    var stop := TailDelimits(t, last, more, close, rest);
    var next := off + |t.blanks|;
    DelimitedStops(stop);
    ReadsOn(cfg, off, TailText(t), more, close + rest);
    BlanksFirst(t, more, close, cfg, off, rest, stop);
    SkipBlanks(cfg, off, t.blanks, stop);
    ReadsNext(cfg, off, t.blanks, stop);
    PlainStop(cfg, next, stop);
    if t.comma {
      CommaNext(t, more, close, cfg, next, rest);
      SkipBlanks(cfg, next + 1, t.gap, more + (close + rest));
    }
    TailLength(t);
  }

  lemma TailLength(t: Tail)
    ensures |TailText(t)| == |t.blanks| + if t.comma then 1 + |t.gap| else 0
  {
  }

  lemma BlanksFirst(t: Tail, more: string, close: string, cfg: string, off: nat, rest: string, stop: string)
    requires Reads(cfg, off, TailText(t) + more, close + rest)
    requires TailText(t) + more + (close + rest) == t.blanks + stop
    ensures Reads(cfg, off, t.blanks, stop)
  {
    hide TailText;
  }

  lemma CommaNext(t: Tail, more: string, close: string, cfg: string, next: nat, rest: string)
    requires next <= |cfg| && cfg[next..] == (if t.comma then "," + t.gap else "") + (more + (close + rest)) && t.comma
    ensures Reads(cfg, next + 1, t.gap, more + (close + rest))
  {
    assert cfg[next..] == "," + (t.gap + (more + (close + rest)));
    assert cfg[next + 1..] == cfg[next..][1..];
  }

  lemma PlainStop(cfg: string, next: nat, stop: string)
    requires Stops(stop) && At(cfg, next) == if stop == "" then '\0' else stop[0]
    ensures Skip(cfg, next) == next
  {
  }

  // ------------------------------------------------------------------ lists

  /** No value starts with a blank, a closing bracket or the end of the text. */
  predicate Starts(c: char) {
    !IsSpace(c) && c != ']' && c != '}' && c != ')' && c != '\0'
  }

  lemma TextStarts(d: Doc)
    requires Good(d)
    ensures Text(d) != "" && Starts(Text(d)[0])
  {
  }

  /** Text that starts so is no blank. */
  lemma StartsStops(text: string, rest: string)
    requires text != "" && Starts(text[0])
    ensures Stops(text + rest)
  {
    assert (text + rest)[0] == text[0];
  }

  lemma ItemsStop(items: seq<Item>, i: nat, rest: string)
    requires i <= |items| && forall k | 0 <= k < |items| :: Good(items[k].value)
    ensures Stops(ItemsText(items, i) + ("]" + rest))
  {
    hide Text, Good;
    if i < |items| {
      TextStarts(items[i].value);
      var v, more := Text(items[i].value), TailText(items[i].Rest()) + ItemsText(items, i + 1);
      StartsStops(v, more + ("]" + rest));
      assert v + more + ("]" + rest) == v + (more + ("]" + rest));
    }
  }

  ghost predicate GoodItems(items: seq<Item>) {
    forall k | 0 <= k < |items| :: Good(items[k].value) && GoodTail(items[k].Rest(), k + 1 == |items|)
  }

  lemma {:induction false} ItemsRead(items: seq<Item>, i: nat, blanks: string, cfg: string, off: nat, rest: string)
    requires i <= |items| && GoodItems(items) && Blank(blanks) && Delimited(rest)
    requires Reads(cfg, off, ItemsText(items, i), "]" + (blanks + rest))
    ensures ParseItems(cfg, off, ValuesOf(items)[..i]) ==
      Parsed(List(ValuesOf(items)), off + |ItemsText(items, i)| + 1 + |blanks|)
    decreases items, |items| - i
  {
    hide Text, TailText, Blank, Stops, Delimited, Reads, Skip, ParseValue, ParseItems, Meaning, Good, GoodTail;
    hide ValuesOf;
    var values := ValuesOf(items);
    if i == |items| {
      assert values[..i] == values;
      ListEnds(values, blanks, cfg, off, rest);
    } else {
      var v, t, more := Text(items[i].value), items[i].Rest(), ItemsText(items, i + 1);
      assert ItemsText(items, i) == v + (TailText(t) + more);
      ReadsOn(cfg, off, v, TailText(t) + more, "]" + (blanks + rest));
      var stop := TailDelimits(t, i + 1 == |items|, more, "]", blanks + rest);
      DocReads(items[i].value, t.blanks, cfg, off, stop);
      ItemsStop(items, i + 1, blanks + rest);
      OneElement(items[i], i + 1 == |items|, more, values[..i], cfg, off, stop, blanks + rest);
      ValueAt(items, i);
      assert values[..i] + [values[i]] == values[..i + 1];
      ItemsRead(items, i + 1, blanks, cfg, off + |v| + |TailText(t)|, rest);
    }
  }

  /** One round of the loop, once the item has been read. */
  lemma OneElement(item: Item, last: bool, more: string, done: seq<Attr>, cfg: string, off: nat, stop: string,
                   rest: string)
    requires Good(item.value) && GoodTail(item.Rest(), last) && (last ==> more == "") && Stops(more + ("]" + rest))
    requires Reads(cfg, off, Text(item.value), item.blanks + stop)
    requires Reads(cfg, off + |Text(item.value)|, TailText(item.Rest()) + more, "]" + rest)
    requires ParseValue(cfg, off) == Parsed(Meaning(item.value), off + |Text(item.value)| + |item.blanks|)
    ensures var go := off + |Text(item.value)| + |TailText(item.Rest())|;
      && ParseItems(cfg, off, done) == ParseItems(cfg, go, done + [Meaning(item.value)])
      && Reads(cfg, go, more, "]" + rest)
  {
    hide Text, TailText, Blank, Stops, Delimited, Reads, Skip, ParseValue, ParseItems, Meaning, Good, GoodTail;
    var v, t := Text(item.value), item.Rest();
    AfterTail(t, last, more, "]", cfg, off + |v|, rest);
    TextStarts(item.value);
    ReadsAt(cfg, off, v, t.blanks + stop, 0);
    ItemStep(cfg, off, done, Meaning(item.value), off + |v| + |t.blanks|, off + |v| + |TailText(t)|);
  }

  lemma ValueAt(items: seq<Item>, i: nat)
    requires i < |items|
    ensures ValuesOf(items)[i] == Meaning(items[i].value)
  {
    hide Meaning;
  }

  lemma ListEnds(values: seq<Attr>, blanks: string, cfg: string, off: nat, rest: string)
    requires Blank(blanks) && Delimited(rest) && Reads(cfg, off, "", "]" + (blanks + rest))
    ensures ParseItems(cfg, off, values) == Parsed(List(values), off + 1 + |blanks|)
  {
    hide Blank, Skip, ParseValue, Stops;
    assert "" + ("]" + (blanks + rest)) == "]" + (blanks + rest);
    ReadsAt(cfg, off, "]", blanks + rest, 0);
    DelimitedStops(rest);
    SkipAfter(cfg, off, "]", blanks, rest);
  }

  /** One round of the loop over list items. */
  lemma ItemStep(cfg: string, off: nat, done: seq<Attr>, item: Attr, next: nat, go: nat)
    requires Starts(At(cfg, off)) && ParseValue(cfg, off) == Parsed(item, next) && Skip(cfg, next) == next
    requires if At(cfg, next) == ',' then Skip(cfg, next + 1) == go else go == next
    ensures ParseItems(cfg, off, done) == ParseItems(cfg, go, done + [item])
  {
    hide ParseValue, Skip;
  }

  lemma ListReads(lead: string, items: seq<Item>, blanks: string, cfg: string, off: nat, rest: string)
    requires Blank(lead) && GoodItems(items) && Blank(blanks) && Delimited(rest)
    requires Reads(cfg, off, "[" + (lead + ItemsText(items, 0)) + "]", blanks + rest)
    ensures ParseValue(cfg, off) == Parsed(List(ValuesOf(items)), off + |lead| + |ItemsText(items, 0)| + 2 + |blanks|)
    decreases items, |items| + 1
  {
    hide Text, Blank, Stops, Delimited, Reads, Skip, ParseValue, ParseItems, Good, GoodTail, ValuesOf, ItemsText;
    ItemsStop(items, 0, blanks + rest);
    Opened("[", lead, ItemsText(items, 0), "]", cfg, off, blanks + rest);
    ListOpens(cfg, off);
    ItemsRead(items, 0, blanks, cfg, off + 1 + |lead|, rest);
    assert ValuesOf(items)[..0] == [];
  }

  /** Behind an opening bracket and blanks. */
  lemma Opened(open: string, lead: string, text: string, close: string, cfg: string, off: nat, rest: string)
    requires |open| == 1 && Blank(lead) && Stops(text + (close + rest))
    requires Reads(cfg, off, open + (lead + text) + close, rest)
    ensures At(cfg, off) == open[0] && Skip(cfg, off + 1) == off + 1 + |lead|
    ensures Reads(cfg, off + 1 + |lead|, text, close + rest)
  {
    hide Blank, Stops, Skip, Reads;
    assert open + (lead + text) + close == open + (lead + (text + close));
    ReadsOn(cfg, off, open, lead + (text + close), rest);
    ReadsAt(cfg, off, open, lead + (text + close) + rest, 0);
    ReadsOn(cfg, off + 1, lead, text + close, rest);
    ReadsOn(cfg, off + 1 + |lead|, text, close, rest);
    assert text + close + rest == text + (close + rest);
    SkipBlanks(cfg, off + 1, lead, text + (close + rest));
  }

  lemma ListOpens(cfg: string, off: nat)
    requires At(cfg, off) == '['
    ensures ParseValue(cfg, off) == ParseItems(cfg, Skip(cfg, off + 1), [])
  {
    SkipPlain(cfg, off);
    hide Skip, ParseString, ParseItems, ParsePairs, ParseBytes, ParseNumber, Matches;
  }

  // ------------------------------------------------------------------ dictionaries

  ghost predicate GoodEntry(e: Entry, last: bool) {
    && GoodQuote(e.quote, e.key) && Blank(e.afterKey) && Blank(e.beforeValue)
    && Good(e.value) && GoodTail(e.tail, last)
  }

  ghost predicate GoodEntries(entries: seq<Entry>) {
    forall k | 0 <= k < |entries| :: GoodEntry(entries[k], k + 1 == |entries|)
  }

  lemma EntriesStop(entries: seq<Entry>, i: nat, rest: string)
    requires i <= |entries| && GoodEntries(entries)
    ensures Stops(EntriesText(entries, i) + ("}" + rest))
  {
    hide Text, Good, Blank;
    if i < |entries| {
      var e := entries[i];
      assert GoodEntry(e, i + 1 == |entries|);
      assert EntryHead(e) == [e.quote] + (e.key + [e.quote] + (e.afterKey + (":" + e.beforeValue)));
      var more := EntriesText(entries, i) + ("}" + rest);
      assert more[0] == e.quote;
    }
  }

  lemma {:induction false} EntriesRead(entries: seq<Entry>, i: nat, blanks: string, cfg: string, off: nat, rest: string)
    requires i <= |entries| && GoodEntries(entries) && Blank(blanks) && Delimited(rest)
    requires !Resolved(Fold(PairsOf(entries)))
    requires Reads(cfg, off, EntriesText(entries, i), "}" + (blanks + rest))
    ensures ParsePairs(cfg, off, Fold(PairsOf(entries)[..i])) ==
      Parsed(Dict(Fold(PairsOf(entries))), off + |EntriesText(entries, i)| + 1 + |blanks|)
    decreases entries, |entries| - i
  {
    hide Text, TailText, Blank, Stops, Delimited, Reads, Skip, ParseValue, ParsePairs, Meaning, Good, GoodTail;
    hide PairsOf, Fold, Resolved, Put, EntryHead, GoodQuote;
    var pairs := PairsOf(entries);
    if i == |entries| {
      assert pairs[..i] == pairs;
      DictEnds(Fold(pairs), blanks, cfg, off, rest);
    } else {
      var e, last := entries[i], i + 1 == |entries|;
      var head, v, t, more := EntryHead(e), Text(e.value), e.tail, EntriesText(entries, i + 1);
      assert GoodEntry(e, last);
      hide GoodEntry;
      ReadsOn(cfg, off, head, v + (TailText(t) + more), "}" + (blanks + rest));
      ReadsOn(cfg, off + |head|, v, TailText(t) + more, "}" + (blanks + rest));
      var stop := EntryStop(e, last, more, blanks + rest);
      DocReads(e.value, t.blanks, cfg, off + |head|, stop);
      EntriesStop(entries, i + 1, blanks + rest);
      OneEntry(e, last, more, Fold(pairs[..i]), cfg, off, blanks + rest);
      PairAt(entries, i);
      assert pairs[..i] + [pairs[i]] == pairs[..i + 1];
      FoldNext(pairs[..i], pairs[i]);
      EntriesRead(entries, i + 1, blanks, cfg, off + |head| + |v| + |TailText(t)|, rest);
    }
  }

  lemma EntryStop(e: Entry, last: bool, more: string, rest: string) returns (stop: string)
    requires GoodEntry(e, last) && (last ==> more == "")
    ensures TailText(e.tail) + more + ("}" + rest) == e.tail.blanks + stop && Delimited(stop)
    ensures Good(e.value) && Blank(e.tail.blanks)
  {
    hide Good, Blank, TailText, Delimited;
    stop := TailDelimits(e.tail, last, more, "}", rest);
  }

  /** One round of the loop, once the value has been read. */
  lemma OneEntry(e: Entry, last: bool, more: string, done: seq<Pair>, cfg: string, off: nat, rest: string)
    requires GoodEntry(e, last) && (last ==> more == "") && Stops(more + ("}" + rest))
    requires Reads(cfg, off, EntryHead(e), Text(e.value) + (TailText(e.tail) + more) + ("}" + rest))
    requires Reads(cfg, off + |EntryHead(e)| + |Text(e.value)|, TailText(e.tail) + more, "}" + rest)
    requires var value := off + |EntryHead(e)|;
      ParseValue(cfg, value) == Parsed(Meaning(e.value), value + |Text(e.value)| + |e.tail.blanks|)
    ensures var go := off + |EntryHead(e)| + |Text(e.value)| + |TailText(e.tail)|;
      && ParsePairs(cfg, off, done) == ParsePairs(cfg, go, Put(done, e.key, Meaning(e.value)))
      && Reads(cfg, go, more, "}" + rest)
  {
    hide Text, TailText, Blank, Stops, Delimited, Reads, Skip, ParseValue, ParsePairs, Meaning, Good, GoodTail, Put,
      EntryHead, GoodQuote;
    var head, v, t := EntryHead(e), Text(e.value), e.tail;
    AfterTail(t, last, more, "}", cfg, off + |head| + |v|, rest);
    TextStarts(e.value);
    assert v + (TailText(t) + more) + ("}" + rest) == v + (TailText(t) + more + ("}" + rest));
    HeadReads(e, cfg, off, v, TailText(t) + more + ("}" + rest));
    PairStep(e.key, cfg, off, done, Meaning(e.value), off + 2 + |e.key| + |e.afterKey|, off + |head|,
      off + |head| + |v| + |t.blanks|, off + |head| + |v| + |TailText(t)|);
  }

  lemma PairAt(entries: seq<Entry>, i: nat)
    requires i < |entries|
    ensures PairsOf(entries)[i] == Pair(entries[i].key, Meaning(entries[i].value))
  {
    hide Meaning;
  }

  /** The key, its colon, and the blanks around it. */
  lemma HeadReads(e: Entry, cfg: string, off: nat, v: string, rest: string)
    requires GoodQuote(e.quote, e.key) && Blank(e.afterKey) && Blank(e.beforeValue)
    requires v != "" && Starts(v[0]) && Reads(cfg, off, EntryHead(e), v + rest)
    ensures var colon := off + 2 + |e.key| + |e.afterKey|;
      && Starts(At(cfg, off)) && ParseValue(cfg, off) == Parsed(Str(e.key), colon)
      && Skip(cfg, colon) == colon && At(cfg, colon) == ':' && Skip(cfg, colon + 1) == off + |EntryHead(e)|
  {
    var colon := off + 2 + |e.key| + |e.afterKey|;
    hide *;
    QuoteStarts(e.quote, e.key);
    StartsStops(v, rest);
    var behind, value := HeadParts(e, cfg, off, v, rest);
    QuotedReads(e.quote, e.key, e.afterKey, cfg, off, behind);
    SkipPlain(cfg, colon);
    SkipBlanks(cfg, colon + 1, e.beforeValue, value);
  }

  lemma QuoteStarts(quote: char, key: string)
    requires GoodQuote(quote, key)
    ensures Starts(quote) && !IsSpace(':')
  {
  }

  /** The pieces of the head: the quoted key and what follows it, the colon, and the value behind it. */
  lemma HeadParts(e: Entry, cfg: string, off: nat, v: string, rest: string) returns (behind: string, value: string)
    requires Reads(cfg, off, EntryHead(e), v + rest) && Stops(v + rest)
    ensures Stops(behind) && Stops(value)
    ensures var colon := off + 2 + |e.key| + |e.afterKey|;
      && Reads(cfg, off, [e.quote] + e.key + [e.quote], e.afterKey + behind)
      && At(cfg, colon) == ':' && Reads(cfg, colon + 1, e.beforeValue, value)
      && colon + 1 + |e.beforeValue| == off + |EntryHead(e)|
  {
    hide Reads, Stops;
    value := v + rest;
    behind := ":" + (e.beforeValue + value);
    ColonStops(behind);
    var quoted, colon := [e.quote] + e.key + [e.quote], off + 2 + |e.key| + |e.afterKey|;
    ReadsOn(cfg, off, quoted, e.afterKey + (":" + e.beforeValue), v + rest);
    assert e.afterKey + (":" + e.beforeValue) == e.afterKey + ":" + e.beforeValue;
    ThreeParts(e.afterKey, ":", e.beforeValue, cfg, off + |quoted|, v + rest);
    ReadsAt(cfg, colon, ":", e.beforeValue + (v + rest), 0);
    assert e.afterKey + (":" + e.beforeValue) + (v + rest) == e.afterKey + (":" + (e.beforeValue + (v + rest)));
  }

  lemma ColonStops(text: string)
    requires text != "" && text[0] == ':'
    ensures Stops(text)
  {
  }

  lemma DictEnds(pairs: seq<Pair>, blanks: string, cfg: string, off: nat, rest: string)
    requires Blank(blanks) && Delimited(rest) && Reads(cfg, off, "", "}" + (blanks + rest)) && !Resolved(pairs)
    ensures ParsePairs(cfg, off, pairs) == Parsed(Dict(pairs), off + 1 + |blanks|)
  {
    hide Blank, Skip, ParseValue, Stops, Resolved;
    assert "" + ("}" + (blanks + rest)) == "}" + (blanks + rest);
    ReadsAt(cfg, off, "}", blanks + rest, 0);
    DelimitedStops(rest);
    SkipAfter(cfg, off, "}", blanks, rest);
  }

  /** One round of the loop over dictionary entries. */
  lemma PairStep(key: string, cfg: string, off: nat, done: seq<Pair>, item: Attr, colon: nat, value: nat, next: nat,
                 go: nat)
    requires Starts(At(cfg, off)) && ParseValue(cfg, off) == Parsed(Str(key), colon) && Skip(cfg, colon) == colon
    requires At(cfg, colon) == ':' && Skip(cfg, colon + 1) == value
    requires ParseValue(cfg, value) == Parsed(item, next) && Skip(cfg, next) == next
    requires if At(cfg, next) == ',' then Skip(cfg, next + 1) == go else go == next
    ensures ParsePairs(cfg, off, done) == ParsePairs(cfg, go, Put(done, key, item))
  {
    hide ParseValue, Skip, Put, Resolved;
  }

  lemma DictReads(lead: string, entries: seq<Entry>, blanks: string, cfg: string, off: nat, rest: string)
    requires Blank(lead) && GoodEntries(entries) && Blank(blanks) && Delimited(rest)
    requires !Resolved(Fold(PairsOf(entries)))
    requires Reads(cfg, off, "{" + (lead + EntriesText(entries, 0)) + "}", blanks + rest)
    ensures ParseValue(cfg, off) ==
      Parsed(Dict(Fold(PairsOf(entries))), off + |lead| + |EntriesText(entries, 0)| + 2 + |blanks|)
    decreases entries, |entries| + 1
  {
    hide *;
    FoldNone();
    EntriesStop(entries, 0, blanks + rest);
    Opened("{", lead, EntriesText(entries, 0), "}", cfg, off, blanks + rest);
    DictOpens(cfg, off);
    EntriesRead(entries, 0, blanks, cfg, off + 1 + |lead|, rest);
    assert PairsOf(entries)[..0] == [];
  }

  lemma FoldNone()
    ensures Fold([]) == []
  {
  }

  lemma DictOpens(cfg: string, off: nat)
    requires At(cfg, off) == '{'
    ensures ParseValue(cfg, off) == ParsePairs(cfg, Skip(cfg, off + 1), [])
  {
    SkipPlain(cfg, off);
    hide Skip, ParseString, ParseItems, ParsePairs, ParseBytes, ParseNumber, Matches;
  }

  // ------------------------------------------------------------------ data

  ghost predicate GoodBytes(bytes: seq<ByteText>) {
    forall k | 0 <= k < |bytes| :: GoodByte(bytes[k]) && GoodTail(bytes[k].tail, k + 1 == |bytes|)
  }

  ghost function DataOf(bytes: seq<ByteText>): (r: seq<nat>)
    ensures |r| == |bytes|
  {
    seq(|bytes|, k requires 0 <= k < |bytes| => ByteOf(bytes[k]))
  }

  lemma ByteStarts(b: ByteText)
    requires GoodByte(b)
    ensures ByteHead(b) != "" && Starts(ByteHead(b)[0])
  {
  }

  lemma BytesStop(bytes: seq<ByteText>, i: nat, rest: string)
    requires i <= |bytes| && GoodBytes(bytes)
    ensures Stops(BytesText(bytes, i) + (")" + rest))
  {
    hide ByteHead, Starts, GoodByte;
    if i < |bytes| {
      ByteStarts(bytes[i]);
      var v, more := ByteHead(bytes[i]), TailText(bytes[i].tail) + BytesText(bytes, i + 1);
      StartsStops(v, more + (")" + rest));
      assert v + more + (")" + rest) == v + (more + (")" + rest));
    }
  }

  lemma {:induction false} BytesRead(bytes: seq<ByteText>, i: nat, blanks: string, cfg: string, off: nat, rest: string)
    requires i <= |bytes| && GoodBytes(bytes) && Blank(blanks) && Delimited(rest)
    requires Reads(cfg, off, BytesText(bytes, i), ")" + (blanks + rest))
    ensures ParseBytes(cfg, off, DataOf(bytes)[..i]) ==
      Parsed(Data(DataOf(bytes)), off + |BytesText(bytes, i)| + 1 + |blanks|)
    decreases |bytes| - i
  {
    hide ByteHead, TailText, Blank, Stops, Delimited, Reads, Skip, ParseBytes, GoodByte, GoodTail, DataOf, ByteOf;
    var data := DataOf(bytes);
    if i == |bytes| {
      assert data[..i] == data;
      DataEnds(data, blanks, cfg, off, rest);
    } else {
      var b, t, more, last := bytes[i], bytes[i].tail, BytesText(bytes, i + 1), i + 1 == |bytes|;
      var v := ByteHead(b);
      ReadsOn(cfg, off, v, TailText(t) + more, ")" + (blanks + rest));
      BytesStop(bytes, i + 1, blanks + rest);
      AfterTail(t, last, more, ")", cfg, off + |v|, blanks + rest);
      ByteReads(b, cfg, off, TailText(t) + more + (")" + (blanks + rest)));
      ByteAt(bytes, i);
      assert data[..i] + [data[i]] == data[..i + 1];
      var go := off + |v| + |TailText(t)|;
      ByteStep(b, cfg, off, data[..i], off + |v| + |t.blanks|, go);
      if !t.comma {
        assert i + 1 == |bytes| && data[..i + 1] == data by { LastHasNone(bytes, i); }
        assert BytesText(bytes, i + 1) == "";
        DataEnds(data, blanks, cfg, go, rest);
        EndsAlike(cfg, go, data);
      } else {
        BytesRead(bytes, i + 1, blanks, cfg, go, rest);
      }
    }
  }

  lemma LastHasNone(bytes: seq<ByteText>, i: nat)
    requires i < |bytes| && GoodBytes(bytes) && !bytes[i].tail.comma
    ensures i + 1 == |bytes|
  {
    hide GoodByte, Blank;
  }

  lemma ByteAt(bytes: seq<ByteText>, i: nat)
    requires i < |bytes|
    ensures DataOf(bytes)[i] == ByteOf(bytes[i])
  {
  }

  lemma DataEnds(data: seq<nat>, blanks: string, cfg: string, off: nat, rest: string)
    requires Blank(blanks) && Delimited(rest) && Reads(cfg, off, "", ")" + (blanks + rest))
    ensures At(cfg, off) == ')' && ParseBytes(cfg, off, data) == Parsed(Data(data), off + 1 + |blanks|)
  {
    hide Blank, Skip, Stops;
    assert "" + (")" + (blanks + rest)) == ")" + (blanks + rest);
    ReadsAt(cfg, off, ")", blanks + rest, 0);
    DelimitedStops(rest);
    SkipAfter(cfg, off, ")", blanks, rest);
  }

  lemma EndsAlike(cfg: string, off: nat, data: seq<nat>)
    requires At(cfg, off) == ')'
    ensures ParseBytes(cfg, off, data) == Parsed(Data(data), Skip(cfg, off + 1))
  {
    hide Skip;
  }

  /** The two digits of a byte, with or without 0x. */
  ghost predicate TwoDigits(b: ByteText, cfg: string, off: nat) {
    var d := if At(cfg, off) == '0' && At(cfg, off + 1) == 'x' then off + 2 else off;
    && d + 2 == off + |ByteHead(b)| && Starts(At(cfg, off))
    && IsHexDigit(At(cfg, d)) && DigitValue(At(cfg, d)) == Weight(b.high)
    && IsHexDigit(At(cfg, d + 1)) && DigitValue(At(cfg, d + 1)) == Weight(b.low)
  }

  lemma ByteReads(b: ByteText, cfg: string, off: nat, rest: string)
    requires GoodByte(b) && Reads(cfg, off, ByteHead(b), rest)
    ensures TwoDigits(b, cfg, off)
  {
    var v := ByteHead(b);
    forall k: nat | k < |v| ensures At(cfg, off + k) == v[k] { ReadsAt(cfg, off, v, rest, k); }
    assert At(cfg, off + 0) == v[0] && At(cfg, off + 1) == v[1];
    WeightIsDigit(b.high);
    WeightIsDigit(b.low);
    if b.prefix { assert At(cfg, off + 2) == v[2] && At(cfg, off + 3) == v[3]; }
  }

  /** One round of the loop over data bytes. */
  lemma ByteStep(b: ByteText, cfg: string, off: nat, done: seq<nat>, next: nat, go: nat)
    requires TwoDigits(b, cfg, off) && Skip(cfg, off + |ByteHead(b)|) == next
    requires if At(cfg, next) == ',' then Skip(cfg, next + 1) == go else At(cfg, next) == ')' && go == next
    ensures ParseBytes(cfg, off, done) == ParseBytes(cfg, go, done + [ByteOf(b)])
  {
    hide Skip, IsHexDigit, DigitValue, Weight, ByteHead;
  }

  lemma DataReads(lead: string, bytes: seq<ByteText>, blanks: string, cfg: string, off: nat, rest: string)
    requires Blank(lead) && GoodBytes(bytes) && Blank(blanks) && Delimited(rest)
    requires Reads(cfg, off, "(" + (lead + BytesText(bytes, 0)) + ")", blanks + rest)
    ensures ParseValue(cfg, off) == Parsed(Data(DataOf(bytes)), off + |lead| + |BytesText(bytes, 0)| + 2 + |blanks|)
  {
    hide Blank, Stops, Delimited, Reads, Skip, ParseValue, ParseBytes, GoodByte, GoodTail, DataOf, BytesText;
    BytesStop(bytes, 0, blanks + rest);
    Opened("(", lead, BytesText(bytes, 0), ")", cfg, off, blanks + rest);
    DataOpens(cfg, off);
    BytesRead(bytes, 0, blanks, cfg, off + 1 + |lead|, rest);
    assert DataOf(bytes)[..0] == [];
  }

  lemma DataOpens(cfg: string, off: nat)
    requires At(cfg, off) == '('
    ensures ParseValue(cfg, off) == ParseBytes(cfg, Skip(cfg, off + 1), [])
  {
    SkipPlain(cfg, off);
    hide Skip, ParseString, ParseItems, ParsePairs, ParseBytes, ParseNumber, Matches;
  }

  // ------------------------------------------------------------------ the whole document

  /** Wherever a document stands, with blanks after it and then a delimiter, the parser reads its meaning
      and goes on at the delimiter. */
  lemma {:induction false} DocReads(d: Doc, blanks: string, cfg: string, off: nat, rest: string)
    requires Good(d) && Blank(blanks) && Delimited(rest) && Reads(cfg, off, Text(d), blanks + rest)
    ensures ParseValue(cfg, off) == Parsed(Meaning(d), off + |Text(d)| + |blanks|)
    decreases d
  {
    hide Blank, Stops, Delimited, Reads, ParseValue, GoodQuote, Positional, NumberEnds, Int, Clamp, Digits;
    DelimitedStops(rest);
    match d
    case Keyword(word) => KeywordReads(word, blanks, cfg, off, rest);
    case Number(negative, digits) =>
      assert digits + "" == digits && Digits("", 16) by { NoDigits(); }
      NumberReads(negative, digits, "", cfg, off, blanks, rest);
    case Hex(digits) => HexReads(digits, cfg, off, blanks, rest);
    case Quoted(quote, text) => QuotedReads(quote, text, blanks, cfg, off, rest);
    case Items(lead, items) => ListReads(lead, items, blanks, cfg, off, rest);
    case Entries(lead, entries) => DictReads(lead, entries, blanks, cfg, off, rest);
    case Bytes(lead, bytes) => DataReads(lead, bytes, blanks, cfg, off, rest);
  }

  lemma NoDigits()
    ensures Digits("", 16)
  {
  }

  /** A whole text: blanks, a document, and blanks. */
  lemma WholeDocument(lead: string, d: Doc, blanks: string)
    requires Blank(lead) && Good(d) && Blank(blanks)
    ensures var cfg := lead + Text(d) + blanks; ParseValue(cfg, 0) == Parsed(Meaning(d), |cfg|)
  {
    hide Blank, Good, Text, Meaning, ParseValue, Reads, Skip, Starts, Stops;
    var cfg := lead + Text(d) + blanks;
    TextStarts(d);
    StartsStops(Text(d), blanks);
    WholeReads(lead, Text(d), blanks);
    SkipBlanks(cfg, 0, lead, Text(d) + blanks);
    LeadingBlanks(cfg, 0);
    DocReads(d, blanks, cfg, |lead|, "");
  }

  lemma WholeReads(lead: string, text: string, blanks: string)
    ensures var cfg := lead + text + blanks;
      Reads(cfg, 0, lead, text + blanks) && Reads(cfg, |lead|, text, blanks + "") && Delimited("")
  {
    var cfg := lead + text + blanks;
    assert cfg[0..] == cfg == lead + (text + blanks);
    assert cfg[|lead|..] == text + blanks == text + (blanks + "");
  }

  // ------------------------------------------------------------------ what is refused

  /** At the end of the text no value, list, dictionary or data can end. */
  lemma UnclosedFails(cfg: string, off: nat, items: seq<Attr>, pairs: seq<Pair>, bytes: seq<nat>)
    requires off >= |cfg|
    ensures ParseItems(cfg, off, items) == Failed && ParsePairs(cfg, off, pairs) == Failed
    ensures ParseBytes(cfg, off, bytes) == Failed && ParseValue(cfg, off) == Failed
  {
    SkipPlain(cfg, off);
    assert At(cfg, off + 0) != "None"[0];
    hide Skip;
  }

  /** A string whose quote does not come again fails, or is too long for its buffer. */
  lemma OpenStringFails(cfg: string, off: nat)
    requires (At(cfg, off) == '"' || At(cfg, off) == '\'') && forall k | off < k < |cfg| :: cfg[k] != cfg[off]
    ensures !ParseValue(cfg, off).Parsed?
  {
    QuoteOpens(cfg, off);
    hide ParseValue;
    EndsOutside(cfg, off + 1, cfg[off]);
  }

  lemma {:induction false} EndsOutside(cfg: string, off: nat, quote: char)
    requires quote != '\0' && forall k | off <= k < |cfg| :: cfg[k] != quote
    ensures At(cfg, QuoteEnd(cfg, off, quote)) != quote
    decreases |cfg| - off
  {
    if At(cfg, off) != quote && At(cfg, off) != '\0' { EndsOutside(cfg, off + 1, quote); }
  }

  /** A character no value starts with. */
  predicate Alien(c: char) {
    && c != '"' && c != '\'' && c != '[' && c != '{' && c != '(' && c != '-' && c != '.' && Weight(c) >= 16
    && c != 'N' && c != 't' && c != 'T' && !IsSpace(c)
  }

  lemma AlienFails(cfg: string, off: nat)
    requires Alien(At(cfg, off))
    ensures ParseValue(cfg, off) == Failed
  {
    SkipPlain(cfg, off);
    WeightIsDigit(At(cfg, off));
    assert At(cfg, off + 0) != "None"[0];
    hide Skip, ParseItems, ParsePairs, ParseBytes, ParseString;
    NoNumber(cfg, off);
  }

  lemma NoNumber(cfg: string, off: nat)
    requires Alien(At(cfg, off)) && Skip(cfg, off) == off
    ensures ParseNumber(cfg, off) == Failed
  {
    WeightIsDigit(At(cfg, off));
    hide Skip;
  }

  /** A key without its colon fails. */
  lemma NoColonFails(cfg: string, off: nat, pairs: seq<Pair>)
    requires At(cfg, off) != '}' && ParseValue(cfg, off).Parsed?
    requires At(cfg, Skip(cfg, ParseValue(cfg, off).off)) != ':'
    ensures ParsePairs(cfg, off, pairs) == Failed
  {
    hide ParseValue, Skip, Resolved;
  }

  /** So does a byte that neither a comma nor the bracket follows. */
  lemma NoCommaFails(cfg: string, off: nat, bytes: seq<nat>)
    requires Weight(At(cfg, off)) < 16 && Weight(At(cfg, off + 1)) < 16
    requires At(cfg, Skip(cfg, off + 2)) != ',' && At(cfg, Skip(cfg, off + 2)) != ')'
    ensures ParseBytes(cfg, off, bytes) == Failed
  {
    WeightIsDigit(At(cfg, off));
    WeightIsDigit(At(cfg, off + 1));
    hide Skip;
  }

  // ------------------------------------------------------------------ an example, and lost letters

  /** An attribute of a platform description, with a decimal number and single quotes. */
  lemma PollingInterval()
    ensures ParseValue("['PollingMs',100]", 0) == Parsed(List([Str("PollingMs"), Int64(100)]), 17)
  {
    var items := [Item(Quoted('\'', "PollingMs"), "", true, ""), Item(Number(false, "100"), "", false, "")];
    var d := Items("", items);
    assert Good(d);
    assert Positional("1", 10) == 1 && Positional("10", 10) == 10 && Positional("100", 10) == 100 by { Hundred(); }
    PollingText(items);
    PollingMeaning(items);
    WholeDocument("", d, "");
  }

  lemma Hundred()
    ensures Positional("1", 10) == 1 && Positional("10", 10) == 10 && Positional("100", 10) == 100
  {
    assert "1"[..0] == "" && "10"[..1] == "1" && "100"[..2] == "10";
  }

  lemma PollingText(items: seq<Item>)
    requires items == [Item(Quoted('\'', "PollingMs"), "", true, ""), Item(Number(false, "100"), "", false, "")]
    ensures "" + Text(Items("", items)) + "" == "['PollingMs',100]"
  {
    assert Text(items[0].value) == "'PollingMs'" && TailText(items[0].Rest()) == ",";
    assert Text(items[1].value) == "100" && TailText(items[1].Rest()) == "";
    assert ItemsText(items, 2) == "";
    assert ItemsText(items, 1) == "100";
    assert ItemsText(items, 0) == "'PollingMs',100";
  }

  lemma PollingMeaning(items: seq<Item>)
    requires items == [Item(Quoted('\'', "PollingMs"), "", true, ""), Item(Number(false, "100"), "", false, "")]
    requires Positional("100", 10) == 100
    ensures Meaning(Items("", items)) == List([Str("PollingMs"), Int64(100)])
  {
    assert ValuesOf(items) == [Str("PollingMs"), Int64(100)];
  }

  /** Letters that are digits only in base 16 end a decimal number and are lost. */
  lemma LettersLost()
    ensures ParseValue("12ab", 0) == Parsed(Int64(12), 4)
  {
    hide Reads, ParseValue, Digits, Blank, Stops, NumberEnds, Weight, Positional;
    TwelveLetters();
    NumberReads(false, "12", "ab", "12ab", 0, "", "");
  }

  lemma TwelveLetters()
    ensures Reads("12ab", 0, "" + ("12" + "ab"), "" + "") && Blank("") && Stops("") && NumberEnds("" + "")
    ensures Digits("12", 10) && Digits("ab", 16) && Weight("ab"[0]) >= 10 && Positional("12", 10) == 12
  {
    assert "12ab"[0..] == "" + ("12" + "ab") + ("" + "");
    assert "12"[..1] == "1" && "1"[..0] == "";
    assert Positional("1", 10) == 1;
  }

  // ------------------------------------------------------------------ what is printed

  /** A number is printed as its hexadecimal digits, in small letters and without leading zeros. */
  lemma {:induction false} PrintedNumber(v: nat)
    ensures Positional(HexDigits(v), 16) == v && HexDigits(v) != ""
    ensures forall k | 0 <= k < |HexDigits(v)| :: '0' <= HexDigits(v)[k] <= '9' || 'a' <= HexDigits(v)[k] <= 'f'
    ensures v > 0 ==> HexDigits(v)[0] != '0'
  {
    PrintedDigit(v % 16);
    hide LowerHex, Weight;
    if v >= 16 {
      PrintedNumber(v / 16);
      var s := HexDigits(v);
      assert s[..|s| - 1] == HexDigits(v / 16);
    } else {
      assert HexDigits(v)[..0] == "";
      assert Positional("", 16) == 0;
    }
  }

  lemma PrintedDigit(d: nat)
    requires d < 16
    ensures var c := LowerHex(d); Weight(c) == d && ('0' <= c <= '9' || 'a' <= c <= 'f') && (d > 0 ==> c != '0')
  {
  }

  /** A byte is printed as 0x and two hexadecimal digits in capitals, the higher one first. */
  lemma PrintedByte(v: nat)
    requires v < 256
    ensures var s := HexByte(v);
      && |s| == 4 && s[..2] == "0x" && 16 * Weight(s[2]) + Weight(s[3]) == v
      && ('0' <= s[2] <= '9' || 'A' <= s[2] <= 'F') && ('0' <= s[3] <= '9' || 'A' <= s[3] <= 'F')
  {
    CapitalDigit(v / 16);
    CapitalDigit(v % 16);
    hide UpperHex, Weight;
  }

  lemma CapitalDigit(d: nat)
    requires d < 16
    ensures var c := UpperHex(d); Weight(c) == d && ('0' <= c <= '9' || 'A' <= c <= 'F')
  {
  }

  /** The text of a value of every kind; negative numbers are printed as 64-bit words. */
  lemma PrintedLeaves(a: Attr)
    requires Valid(a)
    ensures a == Nil ==> Print(a) == "None"
    ensures a == Bool(true) ==> Print(a) == "True"
    ensures a == Bool(false) ==> Print(a) == "False"
    ensures a.UInt64? ==> Print(a) == "0x" + HexDigits(a.u)
    ensures a.Int64? && a.i >= 0 ==> Print(a) == "0x" + HexDigits(a.i)
    ensures a.Int64? && a.i < 0 ==> Print(a) == "0x" + HexDigits(a.i + 0x1_0000_0000_0000_0000)
    ensures a.Str? ==> Print(a) == "\"" + a.s + "\""
  {
    hide HexDigits;
    if a.Int64? { SixtyFour(a.i); }
  }

  lemma SixtyFour(i: int)
    requires -0x8000_0000_0000_0000 <= i < 0x8000_0000_0000_0000
    ensures Word(i) == if i < 0 then i + 0x1_0000_0000_0000_0000 else i
  {
  }

  lemma PrintedSequences()
    ensures Print(List([Nil, Bool(true)])) == "[None,True]" && Print(Data([171, 1])) == "(0xAB,0x01)"
  {
    hide HexDigits, PrintItems, PrintBytes;
    PrintedItems();
    PrintedBytes();
  }

  lemma PrintedItems()
    ensures PrintItems([Nil, Bool(true)], 0) == "None,True"
  {
    hide HexDigits;
    assert PrintItems([Nil, Bool(true)], 2) == "" && PrintItems([Nil, Bool(true)], 1) == "True";
  }

  lemma PrintedBytes()
    ensures PrintBytes([171, 1], 0) == "0xAB,0x01"
  {
    assert PrintBytes([171, 1], 2) == "" && PrintBytes([171, 1], 1) == "0x01";
  }

  lemma PrintedDictionary()
    ensures Print(Dict([Pair("k", Nil), Pair("m", Bool(false))])) == "{\"k\":None,\"m\":False}"
  {
    hide HexDigits;
    var pairs := [Pair("k", Nil), Pair("m", Bool(false))];
    assert PrintPairs(pairs, 2) == "";
    assert PrintPairs(pairs, 1) == "\"m\":False";
    assert PrintPairs(pairs, 0) == "\"k\":None,\"m\":False";
  }
}
