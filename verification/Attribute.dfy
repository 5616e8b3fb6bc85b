/** Attribute trees and their text form: attribute_to_string and string_to_attribute. */
module Attribute {

  /** The kinds of AttributeType that have a text form of their own. */
  datatype Attr =
    | Nil
    | Int64(i: int)
    | UInt64(u: nat)
    | Bool(b: bool)
    | Str(s: string)
    | Data(bytes: seq<nat>)
    | List(items: seq<Attr>)
    | Dict(pairs: seq<Pair>)

  datatype Pair = Pair(key: string, value: Attr)

  /** The 64-bit word of a signed integer, and the signed integer of a word. */
  function Word(i: int): nat {
    i % 0x1_0000_0000_0000_0000
  }

  function Int(w: int): int {
    if w % 0x1_0000_0000_0000_0000 >= 0x8000_0000_0000_0000
    then w % 0x1_0000_0000_0000_0000 - 0x1_0000_0000_0000_0000
    else w % 0x1_0000_0000_0000_0000
  }

  // ------------------------------------------------------------------ printing

  function LowerHex(d: nat): char
    requires d < 16
  {
    "0123456789abcdef"[d]
  }

  function UpperHex(d: nat): char
    requires d < 16
  {
    "0123456789ABCDEF"[d]
  }

  /** printf %llx. */
  function HexDigits(v: nat): string {
    if v < 16 then [LowerHex(v)] else HexDigits(v / 16) + [LowerHex(v % 16)]
  }

  /** printf 0x%02X. */
  function HexByte(v: nat): string
    requires v < 256
  {
    "0x" + [UpperHex(v / 16), UpperHex(v % 16)]
  }

  /** Trees that C can hold: 64-bit integers and 8-bit data. */
  ghost predicate Valid(a: Attr)
    decreases a
  {
    match a
    case Int64(i) => -0x8000_0000_0000_0000 <= i < 0x8000_0000_0000_0000
    case UInt64(u) => u < 0x1_0000_0000_0000_0000
    case Data(bytes) => forall k | 0 <= k < |bytes| :: bytes[k] < 256
    case List(items) => forall k | 0 <= k < |items| :: Valid(items[k])
    case Dict(pairs) => forall k | 0 <= k < |pairs| :: Valid(pairs[k].value)
    case _ => true
  }

  /** The text of a tree. */
  function Print(a: Attr): string
    requires Valid(a)
    decreases a
  {
    match a
    case Nil => "None"
    case Int64(i) => "0x" + HexDigits(Word(i))
    case UInt64(u) => "0x" + HexDigits(u)
    case Bool(b) => if b then "True" else "False"
    case Str(s) => "\"" + s + "\""
    case Data(bytes) => "(" + PrintBytes(bytes, 0) + ")"
    case List(items) => "[" + PrintItems(items, 0) + "]"
    case Dict(pairs) => "{" + PrintPairs(pairs, 0) + "}"
  }

  function Comma(i: nat, n: nat): string {
    if i + 1 < n then "," else ""
  }

  function PrintBytes(bytes: seq<nat>, i: nat): string
    requires i <= |bytes| && forall k | 0 <= k < |bytes| :: bytes[k] < 256
    decreases |bytes| - i
  {
    if i == |bytes| then "" else HexByte(bytes[i]) + Comma(i, |bytes|) + PrintBytes(bytes, i + 1)
  }

  function PrintItems(items: seq<Attr>, i: nat): string
    requires i <= |items| && forall k | 0 <= k < |items| :: Valid(items[k])
    decreases items, |items| - i
  {
    if i == |items| then "" else Print(items[i]) + Comma(i, |items|) + PrintItems(items, i + 1)
  }

  function PrintPairs(pairs: seq<Pair>, i: nat): string
    requires i <= |pairs| && forall k | 0 <= k < |pairs| :: Valid(pairs[k].value)
    decreases pairs, |pairs| - i
  {
    if i == |pairs| then ""
    else "\"" + pairs[i].key + "\":" + Print(pairs[i].value) + Comma(i, |pairs|) + PrintPairs(pairs, i + 1)
  }

  lemma {:induction false} HexDigitsShort(v: nat, n: nat)
    requires v < Power16(n) && n >= 1
    ensures |HexDigits(v)| <= n
    decreases n
  {
    hide LowerHex;
    if v >= 16 { HexDigitsShort(v / 16, n - 1); }
  }

  lemma Power16Word()
    ensures Power16(16) == 0x1_0000_0000_0000_0000
  {
    assert Power16(4) == 0x1_0000;
    assert Power16(8) == 0x1_0000_0000;
    assert Power16(12) == 0x1_0000_0000_0000;
  }

  function Power16(n: nat): nat {
    if n == 0 then 1 else 16 * Power16(n - 1)
  }

  // ------------------------------------------------------------------ the buffer

  /** The growing text buffer the printer appends to and the parser copies strings through. */
  class AutoBuffer {
    var buf_: array<char>
    var buf_len_: nat
    var buf_size_: nat

    ghost predicate Valid()
      reads this, buf_
    {
      buf_.Length == buf_size_ && if buf_size_ == 0 then buf_len_ == 0 else buf_len_ < buf_size_
    }

    /** The characters written so far. */
    function Text(): (t: string)
      requires Valid()
      reads this, buf_
      ensures |t| == buf_len_
    {
      buf_[..buf_len_]
    }

    constructor ()
      ensures Valid() && Text() == "" && buf_size_ == 0 && fresh(buf_)
    {
      buf_, buf_len_, buf_size_ := new char[0], 0, 0;
    }

    /** Room for sz more characters and the terminating NUL, if that takes an allocation: 1024 characters
        the first time, whatever sz is, and afterwards doubling until it fits. */
    method Reserve(sz: nat)
      requires Valid()
      modifies this
      ensures Valid() && Text() == old(Text()) && buf_size_ > 0 && (buf_ == old(buf_) || fresh(buf_))
      ensures buf_len_ + sz < buf_size_ <==> old(buf_size_) > 0 || sz < 1024
    {
      if buf_len_ + sz >= buf_size_ {
        if buf_size_ == 0 {
          buf_size_ := 1024;
          buf_ := new char[1024];
        } else {
          var size := buf_size_;
          while buf_len_ + sz >= size
            invariant size >= buf_size_
            decreases buf_len_ + sz - size
          {
            size := size * 2;
          }
          var t1 := new char[size];
          CopyChars(Text(), t1, 0);
          assert t1[..buf_len_] == Text();
          buf_, buf_size_ := t1, size;
        }
      }
    }

    /** write_bin: appends the characters and a NUL. The first write overruns its buffer exactly when it
        is 1024 characters or longer; then false is returned and nothing is written here. */
    method WriteBin(p: string) returns (ok: bool)
      requires Valid()
      modifies this, buf_
      ensures Valid() && buf_size_ > 0 && (buf_ == old(buf_) || fresh(buf_))
      ensures ok <==> old(buf_size_) > 0 || |p| < 1024
      ensures Text() == if ok then old(Text()) + p else old(Text())
      ensures ok ==> buf_[buf_len_] == '\0'
    {
      ghost var was := Text();
      Reserve(|p|);
      if buf_len_ + |p| >= buf_size_ {
        return false;
      }
      CopyChars(p, buf_, buf_len_);
      buf_len_ := buf_len_ + |p|;
      buf_[buf_len_] := '\0';
      assert buf_[..buf_len_] == was + p;
      ok := true;
    }

    method WriteString(s: string) returns (ok: bool)
      requires Valid()
      modifies this, buf_
      ensures Valid() && buf_size_ > 0 && (buf_ == old(buf_) || fresh(buf_))
      ensures ok <==> old(buf_size_) > 0 || |s| < 1024
      ensures Text() == if ok then old(Text()) + s else old(Text())
    {
      ok := WriteBin(s);
    }

    /** A 64-bit word always fits. */
    method WriteUint64(v: nat)
      requires Valid() && v < 0x1_0000_0000_0000_0000
      modifies this, buf_
      ensures Valid() && buf_size_ > 0 && (buf_ == old(buf_) || fresh(buf_))
      ensures Text() == old(Text()) + ("0x" + HexDigits(v))
    {
      hide HexDigits;
      Power16Word();
      HexDigitsShort(v, 16);
      var ok := WriteBin("0x" + HexDigits(v));
    }

    method WriteByte(v: nat)
      requires Valid() && v < 256
      modifies this, buf_
      ensures Valid() && buf_size_ > 0 && (buf_ == old(buf_) || fresh(buf_))
      ensures Text() == old(Text()) + HexByte(v)
    {
      var ok := WriteBin(HexByte(v));
    }
  }

  method CopyChars(s: string, a: array<char>, at: nat)
    requires at + |s| <= a.Length
    modifies a
    ensures forall k | 0 <= k < a.Length :: a[k] == if at <= k < at + |s| then s[k - at] else old(a[k])
  {
    for i := 0 to |s|
      invariant forall k | 0 <= k < a.Length :: a[k] == if at <= k < at + i then s[k - at] else old(a[k])
    {
      a[at + i] := s[i];
    }
  }

  // ------------------------------------------------------------------ the printer

  /** attribute_to_string: appends the text of the tree to the buffer. No write overruns the buffer,
      because the first one is always short. */
  method AttributeToString(attr: Attr, buf: AutoBuffer)
    requires Valid(attr) && buf.Valid()
    modifies buf, buf.buf_
    ensures buf.Valid() && buf.buf_size_ > 0 && (buf.buf_ == old(buf.buf_) || fresh(buf.buf_))
    ensures buf.Text() == old(buf.Text()) + Print(attr)
    decreases attr
  {
    hide HexDigits;
    ghost var was := buf.Text();
    var ok;
    match attr
    case Nil => ok := buf.WriteString("None");
    case Int64(i) => buf.WriteUint64(Word(i));
    case UInt64(u) => buf.WriteUint64(u);
    case Bool(b) => ok := buf.WriteString(if b then "True" else "False");
    case Str(s) =>
      ok := buf.WriteString("\"");
      ok := buf.WriteString(s);
      ok := buf.WriteString("\"");
      assert was + "\"" + s + "\"" == was + ("\"" + s + "\"");
    case List(items) => ListToString(items, buf);
    case Dict(pairs) => DictToString(pairs, buf);
    case Data(bytes) => DataToString(bytes, buf);
  }

  lemma Regroup(t: string, a: string, b: string, c: string)
    ensures t + a + b + c == t + (a + b + c)
  {
  }

  lemma Bracketed(t: string, open: string, s: string, close: string)
    ensures t + open + s + close == t + (open + s + close)
  {
  }

  method ListToString(items: seq<Attr>, buf: AutoBuffer)
    requires buf.Valid() && forall k | 0 <= k < |items| :: Valid(items[k])
    modifies buf, buf.buf_
    ensures buf.Valid() && buf.buf_size_ > 0 && (buf.buf_ == old(buf.buf_) || fresh(buf.buf_))
    ensures buf.Text() == old(buf.Text()) + ("[" + PrintItems(items, 0) + "]")
    decreases items
  {
    hide Print;
    ghost var was := buf.Text();
    var ok := buf.WriteString("[");
    ghost var start := buf.Text();
    for i := 0 to |items|
      invariant buf.Valid() && buf.buf_size_ > 0 && (buf.buf_ == old(buf.buf_) || fresh(buf.buf_))
      invariant buf.Text() + PrintItems(items, i) == start + PrintItems(items, 0)
    {
      ghost var before := buf.Text();
      AttributeToString(items[i], buf);
      if i + 1 < |items| {
        ok := buf.WriteString(",");
      }
      assert buf.Text() == before + Print(items[i]) + Comma(i, |items|);
      Regroup(before, Print(items[i]), Comma(i, |items|), PrintItems(items, i + 1));
    }
    assert buf.Text() + "" == buf.Text();
    ok := buf.WriteString("]");
    Bracketed(was, "[", PrintItems(items, 0), "]");
  }

  method DictToString(pairs: seq<Pair>, buf: AutoBuffer)
    requires buf.Valid() && forall k | 0 <= k < |pairs| :: Valid(pairs[k].value)
    modifies buf, buf.buf_
    ensures buf.Valid() && buf.buf_size_ > 0 && (buf.buf_ == old(buf.buf_) || fresh(buf.buf_))
    ensures buf.Text() == old(buf.Text()) + ("{" + PrintPairs(pairs, 0) + "}")
    decreases pairs
  {
    hide Print;
    ghost var was := buf.Text();
    var ok := buf.WriteString("{");
    ghost var start := buf.Text();
    for i := 0 to |pairs|
      invariant buf.Valid() && buf.buf_size_ > 0 && (buf.buf_ == old(buf.buf_) || fresh(buf.buf_))
      invariant buf.Text() + PrintPairs(pairs, i) == start + PrintPairs(pairs, 0)
    {
      ghost var before := buf.Text();
      ghost var head := "\"" + pairs[i].key + "\":";
      PairToString(pairs[i], i + 1 < |pairs|, buf);
      Regroup(before, head + Print(pairs[i].value), Comma(i, |pairs|), PrintPairs(pairs, i + 1));
    }
    assert buf.Text() + "" == buf.Text();
    ok := buf.WriteString("}");
    Bracketed(was, "{", PrintPairs(pairs, 0), "}");
  }

  method PairToString(p: Pair, more: bool, buf: AutoBuffer)
    requires buf.Valid() && Valid(p.value)
    modifies buf, buf.buf_
    ensures buf.Valid() && buf.buf_size_ > 0 && (buf.buf_ == old(buf.buf_) || fresh(buf.buf_))
    ensures buf.Text() == old(buf.Text()) + ("\"" + p.key + "\":" + Print(p.value)) + if more then "," else ""
    decreases p
  {
    hide Print;
    ghost var was, head := buf.Text(), "\"" + p.key + "\":";
    KeyToString(p.key, buf);
    AttributeToString(p.value, buf);
    assert was + head + Print(p.value) == was + (head + Print(p.value));
    if more {
      var ok := buf.WriteString(",");
    }
  }

  method KeyToString(key: string, buf: AutoBuffer)
    requires buf.Valid()
    modifies buf, buf.buf_
    ensures buf.Valid() && buf.buf_size_ > 0 && (buf.buf_ == old(buf.buf_) || fresh(buf.buf_))
    ensures buf.Text() == old(buf.Text()) + ("\"" + key + "\":")
  {
    ghost var was := buf.Text();
    var ok := buf.WriteString("\"");
    ok := buf.WriteString(key);
    ok := buf.WriteString("\"");
    ok := buf.WriteString(":");
    assert was + "\"" + key + "\"" + ":" == was + ("\"" + key + "\":");
  }

  method DataToString(bytes: seq<nat>, buf: AutoBuffer)
    requires buf.Valid() && forall k | 0 <= k < |bytes| :: bytes[k] < 256
    modifies buf, buf.buf_
    ensures buf.Valid() && buf.buf_size_ > 0 && (buf.buf_ == old(buf.buf_) || fresh(buf.buf_))
    ensures buf.Text() == old(buf.Text()) + ("(" + PrintBytes(bytes, 0) + ")")
  {
    hide HexByte;
    ghost var was := buf.Text();
    var ok := buf.WriteString("(");
    ghost var start := buf.Text();
    if |bytes| > 0 {
      for n := 0 to |bytes| - 1
        invariant buf.Valid() && buf.buf_size_ > 0 && (buf.buf_ == old(buf.buf_) || fresh(buf.buf_))
        invariant buf.Text() + PrintBytes(bytes, n) == start + PrintBytes(bytes, 0)
      {
        ghost var before := buf.Text();
        buf.WriteByte(bytes[n]);
        ok := buf.WriteString(",");
        assert buf.Text() == before + HexByte(bytes[n]) + Comma(n, |bytes|);
        Regroup(before, HexByte(bytes[n]), Comma(n, |bytes|), PrintBytes(bytes, n + 1));
      }
      var last := |bytes| - 1;
      assert PrintBytes(bytes, last) == HexByte(bytes[last]) + Comma(last, |bytes|) + PrintBytes(bytes, last + 1);
      assert PrintBytes(bytes, last) == HexByte(bytes[last]);
      buf.WriteByte(bytes[last]);
    }
    assert buf.Text() == start + PrintBytes(bytes, 0);
    ok := buf.WriteString(")");
    Bracketed(was, "(", PrintBytes(bytes, 0), ")");
  }
}
