/** Exactly which trees come back from their text. */
module AttributeSurvival {
  import opened Attribute
  import opened AttributeParse
  import opened AttributeRoundTrip

  ghost predicate NoQuote(s: string) {
    forall k | 0 <= k < |s| :: s[k] != '"'
  }

  /** No double quote in any string or key, and every Type entry nil or a string. */
  ghost predicate Regular(a: Attr)
    decreases a
  {
    match a
    case Str(s) => NoQuote(s)
    case List(items) => forall k | 0 <= k < |items| :: Regular(items[k])
    case Dict(pairs) => forall k | 0 <= k < |pairs| :: RegularKey(pairs[k]) && Regular(pairs[k].value)
    case _ => true
  }

  ghost predicate RegularKey(p: Pair) {
    NoQuote(p.key) && TextType(p)
  }

  // ------------------------------------------------------------------ regular trees

  /** A printable tree is read back; any other one fails, or is read to its end as something else. */
  ghost predicate Outcome(a: Attr, r: ParseResult, end: nat)
  {
    if Printable(a) then r == Parsed(Normal(a), end)
    else r.Parsed? ==> r.off == end && r.value != Normal(a)
  }

  lemma {:induction false} TreeOutcome(a: Attr, cfg: string, off: nat, rest: string)
    requires Valid(a) && Regular(a) && Reads(cfg, off, Print(a), rest) && Delimited(rest)
    ensures Outcome(a, ParseValue(cfg, off), off + |Print(a)|)
    decreases a
  {
    hide ParseValue, Reads, Quotable, Delimited, PrintItems, PrintPairs, NormalItems, NormalPairs, RegularKey, NoQuote;
    if Printable(a) {
      RoundTrip(a, cfg, off, rest);
    } else {
      match a
      case Str(s) => BadText(s, cfg, off, rest);
      case List(items) => ListOutcome(items, cfg, off, rest);
      case Dict(pairs) => DictFails(pairs, cfg, off, rest);
      case _ =>
    }
  }

  /** Without a double quote, a string that is not quotable is not read at all. */
  lemma BadText(s: string, cfg: string, off: nat, rest: string)
    requires NoQuote(s) && !Quotable(s) && Reads(cfg, off, "\"" + s + "\"", rest)
    ensures At(cfg, off) == '"' && !ParseValue(cfg, off).Parsed?
  {
    var n := FirstNul(s);
    var head, tail := s[..n], s[n..] + "\"";
    assert "\"" + s + "\"" == "\"" + (head + tail);
    hide Reads, Skip, Quotable;
    ReadsAt(cfg, off, "\"" + s + "\"", rest, 0);
    SkipPlain(cfg, off);
    ReadsOn(cfg, off, "\"", head + tail, rest);
    ReadsOn(cfg, off + 1, head, tail, rest);
    QuoteRun(cfg, off + 1, head, tail + rest);
    ReadsAt(cfg, off + 1 + n, tail, rest, 0);
  }

  lemma {:induction false} FirstNul(s: string) returns (n: nat)
    ensures n <= |s| && (n < |s| ==> s[n] == '\0') && forall k | 0 <= k < n :: s[k] != '\0'
    ensures NoQuote(s) && !Quotable(s) ==> n < |s| || n >= 1024
  {
    if s == "" || s[0] == '\0' {
      n := 0;
    } else {
      n := FirstNul(s[1..]);
      n := n + 1;
      assert forall k | 0 < k < |s| :: s[k] == s[1..][k - 1];
    }
  }

  /** What the loop over the items from i on reads: all of them, wrong exactly where they are not
      printable. */
  lemma {:induction false} ItemsOutcome(items: seq<Attr>, i: nat, done: seq<Attr>, cfg: string, off: nat, rest: string)
      returns (all: seq<Attr>)
    requires |done| == i <= |items| && Delimited(rest)
    requires forall k | 0 <= k < |items| :: Valid(items[k]) && Regular(items[k])
    requires Reads(cfg, off, PrintItems(items, i), "]" + rest)
    ensures var r := ParseItems(cfg, off, done);
      r.Parsed? ==> r == Parsed(List(all), off + |PrintItems(items, i)| + 1)
    ensures |all| == |items| && all[..i] == done
    ensures ParseItems(cfg, off, done).Parsed? ==>
      forall k | i <= k < |items| :: all[k] == Normal(items[k]) <==> Printable(items[k])
    decreases items, |items| - i
  {
    hide Print, Skip, ParseValue, Normal, Reads, ParseItems, Delimited, Valid, Printable, Regular;
    if i == |items| {
      LastItem(done, cfg, off, rest);
      all := done;
    } else {
      var text, tail := Print(items[i]), Comma(i, |items|) + PrintItems(items, i + 1);
      assert PrintItems(items, i) == text + tail;
      ReadsOn(cfg, off, text, tail, "]" + rest);
      TailDelimited(i, |items|, PrintItems(items, i + 1), "]", rest);
      TreeOutcome(items[i], cfg, off, tail + ("]" + rest));
      FirstAt(items[i], cfg, off, tail + ("]" + rest));
      var r := ParseValue(cfg, off);
      if r.Parsed? {
        OneItem(items, i, done, r.value, cfg, off, rest);
        all := ItemsOutcome(items, i + 1, done + [r.value], cfg, off + |text| + |Comma(i, |items|)|, rest);
        assert all[i] == all[..i + 1][i] == r.value && all[..i] == all[..i + 1][..i];
      } else {
        ItemStops(cfg, off, done);
        all := done + items[i..];
      }
    }
  }

  lemma ItemStops(cfg: string, off: nat, done: seq<Attr>)
    requires !ParseValue(cfg, off).Parsed? && At(cfg, off) != ']'
    ensures !ParseItems(cfg, off, done).Parsed?
  {
    hide ParseValue;
  }

  lemma ListOutcome(items: seq<Attr>, cfg: string, off: nat, rest: string)
    requires forall k | 0 <= k < |items| :: Valid(items[k]) && Regular(items[k])
    requires Reads(cfg, off, "[" + PrintItems(items, 0) + "]", rest) && Delimited(rest)
    requires exists k | 0 <= k < |items| :: !Printable(items[k])
    ensures var r := ParseValue(cfg, off);
      r.Parsed? ==> r.off == off + |PrintItems(items, 0)| + 2 && r.value != List(NormalItems(items))
    decreases items, |items| + 1
  {
    hide Printable, Regular, Valid, PrintItems, Reads, ParseValue, ParseItems, Normal;
    OpenList(items, cfg, off, rest);
    var all := ItemsOutcome(items, 0, [], cfg, off + 1, rest);
    var k :| 0 <= k < |items| && !Printable(items[k]);
    assert NormalItems(items)[k] == Normal(items[k]);
  }

  /** What the loop over the entries from i on reads: all of them, with their keys, and with values that
      are wrong exactly where they are not printable. */
  lemma {:induction false} PairsOutcome(pairs: seq<Pair>, i: nat, read: seq<Pair>, cfg: string, off: nat, rest: string)
      returns (all: seq<Pair>)
    requires |read| == i <= |pairs| && Delimited(rest)
    requires forall k | 0 <= k < |pairs| :: Valid(pairs[k].value) && RegularKey(pairs[k]) && Regular(pairs[k].value)
    requires Reads(cfg, off, PrintPairs(pairs, i), "}" + rest)
    ensures |all| == |pairs| && all[..i] == read && forall k | i <= k < |pairs| :: all[k].key == pairs[k].key
    ensures var r := ParsePairs(cfg, off, Fold(read));
      r.Parsed? ==> !Resolved(Fold(all)) && r == Parsed(Dict(Fold(all)), off + |PrintPairs(pairs, i)| + 1)
    ensures ParsePairs(cfg, off, Fold(read)).Parsed? ==> forall k | i <= k < |pairs| ::
      Quotable(pairs[k].key) && (all[k].value == Normal(pairs[k].value) <==> Printable(pairs[k].value))
    decreases pairs, |pairs| - i
  {
    hide Print, Skip, ParseValue, Normal, Resolved, Put, Reads, ParsePairs, Delimited, PairHead, Fold;
    hide Valid, Printable, Quotable, Regular, RegularKey;
    if i == |pairs| {
      LastPair(Fold(read), cfg, off, rest);
      all := read;
    } else {
      var p, tail := pairs[i], Comma(i, |pairs|) + PrintPairs(pairs, i + 1);
      var head, text := PairHead(p), Print(p.value);
      PairText(pairs, i);
      ReadsOn(cfg, off, head, text + tail, "}" + rest);
      ReadsOn(cfg, off + |head|, text, tail, "}" + rest);
      TailDelimited(i, |pairs|, PrintPairs(pairs, i + 1), "}", rest);
      TreeOutcome(p.value, cfg, off + |head|, tail + ("}" + rest));
      var r := ParseValue(cfg, off + |head|);
      if !Quotable(p.key) {
        BadKey(p, cfg, off, Fold(read), text + tail + ("}" + rest));
        all := read + pairs[i..];
      } else if r.Parsed? {
        OnePair(pairs, i, Fold(read), r.value, cfg, off, rest);
        FoldNext(read, Pair(p.key, r.value));
        all := PairsOutcome(pairs, i + 1, read + [Pair(p.key, r.value)], cfg,
          off + |head| + |text| + |Comma(i, |pairs|)|, rest);
        assert all[i] == all[..i + 1][i] && all[..i] == all[..i + 1][..i];
      } else {
        FirstChar(p.value);
        FirstAt(p.value, cfg, off + |head|, tail + ("}" + rest));
        PairStops(p, cfg, off, Fold(read), text + tail + ("}" + rest));
        all := read + pairs[i..];
      }
    }
  }

  lemma BadKey(p: Pair, cfg: string, off: nat, done: seq<Pair>, rest: string)
    requires RegularKey(p) && !Quotable(p.key) && Reads(cfg, off, PairHead(p), rest)
    ensures !ParsePairs(cfg, off, done).Parsed?
  {
    hide ParseValue, Quotable;
    assert PairHead(p) == "\"" + p.key + "\"" + ":";
    ReadsOn(cfg, off, "\"" + p.key + "\"", ":", rest);
    BadText(p.key, cfg, off, ":" + rest);
  }

  lemma PairStops(p: Pair, cfg: string, off: nat, done: seq<Pair>, rest: string)
    requires Quotable(p.key) && Reads(cfg, off, PairHead(p), rest) && rest != "" && !IsSpace(rest[0])
    requires !ParseValue(cfg, off + |PairHead(p)|).Parsed?
    ensures !ParsePairs(cfg, off, done).Parsed?
  {
    hide ParseValue, Skip, Quotable, PairHead, Put, Resolved;
    KeyTrip(p, cfg, off, rest);
  }

  lemma DictFails(pairs: seq<Pair>, cfg: string, off: nat, rest: string)
    requires forall k | 0 <= k < |pairs| :: Valid(pairs[k].value) && RegularKey(pairs[k]) && Regular(pairs[k].value)
    requires !Printable(Dict(pairs)) && Delimited(rest)
    requires Reads(cfg, off, "{" + PrintPairs(pairs, 0) + "}", rest)
    ensures var r := ParseValue(cfg, off);
      r.Parsed? ==> r.off == off + |PrintPairs(pairs, 0)| + 2 && r.value != Dict(NormalPairs(pairs))
    decreases pairs, |pairs| + 1
  {
    assert Fold([]) == [];
    hide Regular, RegularKey, PrintPairs, Reads, ParseValue, ParsePairs, Fold, Resolved, Quotable, Delimited;
    OpenDict(pairs, cfg, off, rest);
    var all := PairsOutcome(pairs, 0, [], cfg, off + 1, rest);
    if ParseValue(cfg, off).Parsed? { WrongDict(pairs, all); }
  }

  /** The entries read make up the dictionary only if that is printable. */
  lemma WrongDict(pairs: seq<Pair>, all: seq<Pair>)
    requires (forall k | 0 <= k < |pairs| :: Valid(pairs[k].value)) && !Printable(Dict(pairs))
    requires |all| == |pairs| && !Resolved(Fold(all))
    requires forall k | 0 <= k < |pairs| ::
      && Quotable(pairs[k].key) && all[k].key == pairs[k].key
      && (all[k].value == Normal(pairs[k].value) <==> Printable(pairs[k].value))
    ensures Fold(all) != NormalPairs(pairs)
  {
    hide Resolved, Fold, Normal, Quotable, PlainTypes, DistinctKeys;
    if Fold(all) == NormalPairs(pairs) {
      FoldKeeps(all);
      NormalKeys(pairs);
      assert all == NormalPairs(pairs);
      forall k | 0 <= k < |pairs| ensures Printable(pairs[k].value) {
        assert NormalPairs(pairs)[k].value == Normal(pairs[k].value);
      }
      TypeEntry(pairs);
      assert FineEntries(pairs);
      DictPairs(pairs);
    }
  }

  // ------------------------------------------------------------------ trees with other strings in lists

  /** Trees in which every dictionary is regular; strings elsewhere are arbitrary. */
  ghost predicate Plain(a: Attr)
    decreases a
  {
    match a
    case List(items) => forall k | 0 <= k < |items| :: Plain(items[k])
    case Dict(pairs) => Regular(a)
    case _ => true
  }

  /** The loop over list items only appends. */
  lemma {:induction false} ItemsExtend(cfg: string, off: nat, items: seq<Attr>)
    ensures var r := ParseItems(cfg, off, items);
      r.Parsed? ==> r.value.List? && |r.value.items| >= |items| && r.value.items[..|items|] == items
    decreases |cfg| - off
  {
    hide Skip, ParseValue;
    if At(cfg, off) != ']' && At(cfg, off) != '\0' {
      match ParseValue(cfg, off)
      case Parsed(item, next) =>
        var s := Skip(cfg, next);
        var go := if At(cfg, s) == ',' then Skip(cfg, s + 1) else s;
        ItemsExtend(cfg, go, items + [item]);
        var r := ParseItems(cfg, go, items + [item]);
        if r.Parsed? { assert r.value.items[..|items|] == r.value.items[..|items| + 1][..|items|]; }
      case _ =>
    }
  }

  /** From the first item that does not come back on, the list does not either. */
  lemma {:induction false} BadItems(items: seq<Attr>, i: nat, cfg: string, off: nat, rest: string)
    requires i < |items| && forall k | 0 <= k < |items| :: Valid(items[k]) && Plain(items[k])
    requires Reads(cfg, off, PrintItems(items, i), "]" + rest)
    requires exists k | i <= k < |items| :: !Printable(items[k])
    ensures var r := ParseItems(cfg, off, NormalItems(items)[..i]); !(r.Parsed? && r.value == List(NormalItems(items)))
    decreases items, |items| - i
  {
    hide Print, Skip, ParseValue, Normal, Reads, ParseItems, Delimited, NormalItems, Valid, Printable, Plain;
    var text, tail := Print(items[i]), Comma(i, |items|) + PrintItems(items, i + 1);
    assert PrintItems(items, i) == text + tail;
    ReadsOn(cfg, off, text, tail, "]" + rest);
    NormalItem(items, i);
    TailDelimited(i, |items|, PrintItems(items, i + 1), "]", rest);
    if Printable(items[i]) {
      RoundTrip(items[i], cfg, off, tail + ("]" + rest));
      OneItem(items, i, NormalItems(items)[..i], Normal(items[i]), cfg, off, rest);
      BadItems(items, i + 1, cfg, off + |text| + |Comma(i, |items|)|, rest);
    } else {
      BadValue(items[i], cfg, off, tail + ("]" + rest));
      FirstAt(items[i], cfg, off, tail + ("]" + rest));
      WrongItem(items, i, cfg, off);
    }
  }

  /** A wrong item stays in its place. */
  lemma WrongItem(items: seq<Attr>, i: nat, cfg: string, off: nat)
    requires i < |items| && At(cfg, off) != ']' && At(cfg, off) != '\0'
    requires var r := ParseValue(cfg, off); !(r.Parsed? && r.value == Normal(items[i]))
    ensures var r := ParseItems(cfg, off, NormalItems(items)[..i]); !(r.Parsed? && r.value == List(NormalItems(items)))
  {
    hide Skip, ParseValue, Normal;
    var done := NormalItems(items)[..i];
    match ParseValue(cfg, off)
    case Parsed(item, next) =>
      var s := Skip(cfg, next);
      var go := if At(cfg, s) == ',' then Skip(cfg, s + 1) else s;
      var r := ParseItems(cfg, go, done + [item]);
      ItemsExtend(cfg, go, done + [item]);
      assert ParseItems(cfg, off, done) == r;
      hide ParseItems;
      if r.Parsed? { assert r.value.items[..i + 1][i] == item; }
    case _ =>
  }

  lemma {:induction false} BadValue(a: Attr, cfg: string, off: nat, rest: string)
    requires Valid(a) && Plain(a) && !Printable(a) && Reads(cfg, off, Print(a), rest) && Delimited(rest)
    ensures var r := ParseValue(cfg, off); !(r.Parsed? && r.value == Normal(a))
    decreases a
  {
    hide ParseValue, Reads, Quotable, Delimited, PrintItems, PrintPairs, NormalItems, NormalPairs, Regular;
    match a
    case Str(s) =>
      BadString(s, cfg, off, rest);
    case List(items) => BadList(items, cfg, off, rest);
    case Dict(pairs) => TreeOutcome(a, cfg, off, rest);
    case _ =>
  }

  lemma BadList(items: seq<Attr>, cfg: string, off: nat, rest: string)
    requires forall k | 0 <= k < |items| :: Valid(items[k]) && Plain(items[k])
    requires exists k | 0 <= k < |items| :: !Printable(items[k])
    requires Reads(cfg, off, "[" + PrintItems(items, 0) + "]", rest)
    ensures var r := ParseValue(cfg, off); !(r.Parsed? && r.value == List(NormalItems(items)))
    decreases items, |items| + 1
  {
    hide Printable, Plain, Valid, PrintItems, NormalItems, Reads, ParseValue, ParseItems;
    OpenList(items, cfg, off, rest);
    BadItems(items, 0, cfg, off + 1, rest);
    assert NormalItems(items)[..0] == [];
  }

  /** A tree in which every dictionary is regular comes back from its text exactly when every string and
      key in it is quotable, no dictionary repeats a key, and no Type entry names the service interface. */
  lemma PlainTreeSurvives(a: Attr)
    requires Valid(a) && Plain(a)
    ensures ParseValue(Print(a), 0) == Parsed(Normal(a), |Print(a)|) <==> Printable(a)
  {
    hide *;
    WholeText(Print(a));
    if Printable(a) { PrintParse(a); } else { BadValue(a, Print(a), 0, ""); }
  }

  /** A dictionary of entries that come back one by one, with Type entries that are nil or strings, comes
      back exactly when no key is repeated and no Type entry names the service interface. */
  lemma DictSurvives(pairs: seq<Pair>)
    requires FineEntries(pairs) && forall k | 0 <= k < |pairs| :: TextType(pairs[k])
    ensures Valid(Dict(pairs))
    ensures ParseValue(Print(Dict(pairs)), 0) == Parsed(Dict(NormalPairs(pairs)), |Print(Dict(pairs))|) <==>
      && DistinctKeys(pairs)
      && forall k | 0 <= k < |pairs| && pairs[k].key == "Type" :: pairs[k].value != Str("IService")
  {
    var a := Dict(pairs);
    hide Quotable, ParseValue, PrintPairs, DictOutcome, Reads, Printable, Resolved, DistinctKeys, NormalPairs,
      Delimited;
    assert Valid(a);
    assert Print(a) == "{" + PrintPairs(pairs, 0) + "}";
    hide Valid, Print, FineEntries;
    WholeText(Print(a));
    DictTrip(pairs, Print(a), 0, "");
    OutcomeSurvives(pairs, |Print(a)|);
  }

  ghost predicate TextType(p: Pair) {
    p.key == "Type" ==> p.value.Nil? || p.value.Str?
  }
}
