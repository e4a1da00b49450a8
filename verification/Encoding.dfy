/**
 The bytes of an encoded message against the grammar of wire records (Protocol Buffers
 Encoding, "Message Structure", "Length-Delimited Records" and "Optional and Repeated
 Elements"): which records every field is written as, with which field number, wire type
 and value.  The grammar knows nothing of the encoder.
 */
module Encoding {
  import opened Sequences
  import opened Wire
  import opened Skipping
  import opened Schema

  /** A length-delimited record of field `num` with the given contents. */
  predicate Carries(f: Field, num: nat, data: seq<byte>) {
    f.LengthField? && Groups(f.tag) == num * 8 + 2 && f.data == data
  }

  /** A varint record of field `num` that spells v. */
  predicate Spells(f: Field, num: nat, v: nat) {
    f.VarintField? && Groups(f.tag) == num * 8 && Groups(f.value) == v
  }

  function Single(f: Field): Fields {
    Cons(f, Nil)
  }

  predicate CarriesAll(fs: Fields, num: nat, items: seq<seq<byte>>) {
    match fs
    case Nil => items == []
    case Cons(f, rest) => items != [] && Carries(f, num, items[0]) && CarriesAll(rest, num, items[1..])
  }

  predicate NothingOrCarries(fs: Fields, num: nat, data: seq<byte>) {
    if data == [] then fs.Nil? else fs.Cons? && fs.tail.Nil? && Carries(fs.head, num, data)
  }

  /** Negative numbers are spelled as their 64-bit two's complement. */
  predicate NothingOrSpells(fs: Fields, num: nat, x: int64) {
    if x == 0 then fs.Nil? else fs.Cons? && fs.tail.Nil? && Spells(fs.head, num, if x < 0 then x + TWO_TO_64 else x)
  }

  /** The records a field value has to be written as: none for the zero values of proto3,
      one for every element of a repeated field, and one for any other value. */
  predicate AreRecordsOf<S>(c: Codec<S>, num: nat, v: Value<S>, fs: Fields) {
    match v
    case BytesValue(b) => NothingOrCarries(fs, num, if b.Some? then b.value else [])
    case StringValue(t) => NothingOrCarries(fs, num, t)
    case RepeatedValue(items) => CarriesAll(fs, num, items)
    case Int32Value(x) => NothingOrSpells(fs, num, x)
    case Int64Value(x) => NothingOrSpells(fs, num, x)
    case BoolValue(x) => NothingOrSpells(fs, num, if x then 1 else 0)
    case NestedValue(x) =>
      if x.None? then fs.Nil? else fs.Cons? && fs.tail.Nil? && Carries(fs.head, num, c.encode(x.value))
  }

  function Append(a: Fields, b: Fields): Fields {
    match a
    case Nil => b
    case Cons(f, rest) => Cons(f, Append(rest, b))
  }

  /** The records of the fields from number k + 1 on, in the order of the numbers. */
  function Joined(parts: seq<Fields>, k: nat): Fields
    requires k <= |parts|
    decreases |parts| - k
  {
    if k == |parts| then Nil else Append(parts[k], Joined(parts, k + 1))
  }

  lemma {:induction false} AppendEncodes(a: Fields, b: Fields)
    ensures EncodeBody(Append(a, b)) == EncodeBody(a) + EncodeBody(b)
    ensures ValidBody(Append(a, b)) <==> ValidBody(a) && ValidBody(b)
  {
    hide Encode, Valid;
    match a {
      case Nil =>
        assert [] + EncodeBody(b) == EncodeBody(b);
      case Cons(f, rest) =>
        AppendEncodes(rest, b);
        Assoc(Encode(f), EncodeBody(rest), EncodeBody(b));
    }
  }

  lemma TagIsTag(num: nat, wireType: nat)
    requires num <= MAX_FIELD && wireType < 8
    ensures IsTag(EncodeVarint(num * 8 + wireType), wireType)
    ensures Groups(EncodeVarint(num * 8 + wireType)) == num * 8 + wireType
  {
    WordIsVarint(num * 8 + wireType);
  }

  lemma WordIsVarint(v: uint64)
    ensures IsVarint(EncodeVarint(v), MAX_VARINT) && Groups(EncodeVarint(v)) == v
  {
    Pow2Values();
    Pow2Adds(64, 6);
    EncodeVarintIsVarint(v, MAX_VARINT);
  }

  lemma DelimitIsRecord(num: nat, data: seq<byte>) returns (f: Field)
    requires num <= MAX_FIELD && |data| < TWO_TO_64
    ensures Valid(f) && f.LengthField? && Carries(f, num, data) && Encode(f) == Delimit(num, data)
  {
    hide EncodeVarint, IsVarint, Groups;
    TagIsTag(num, 2);
    WordIsVarint(|data|);
    f := LengthField(EncodeVarint(num * 8 + 2), EncodeVarint(|data|), data);
  }

  lemma VarintIsRecord(num: nat, v: uint64) returns (f: Field)
    requires num <= MAX_FIELD
    ensures Valid(f) && f.VarintField? && Spells(f, num, v) && Encode(f) == EncodeVarint(num * 8) + EncodeVarint(v)
  {
    hide EncodeVarint, IsVarint, Groups;
    TagIsTag(num, 0);
    WordIsVarint(v);
    f := VarintField(EncodeVarint(num * 8), EncodeVarint(v));
  }

  lemma SingleEncodes(f: Field)
    ensures EncodeBody(Single(f)) == Encode(f)
    ensures Valid(f) && !f.EndMarker? ==> ValidBody(Single(f))
  {
    assert EncodeBody(Nil) == [] && Encode(f) + [] == Encode(f);
  }

  lemma {:induction false} ItemsAreRecords(num: nat, items: seq<seq<byte>>) returns (fs: Fields)
    requires num <= MAX_FIELD && |DelimitAll(num, items)| <= MAX_INT64
    ensures ValidBody(fs) && CarriesAll(fs, num, items) && EncodeBody(fs) == DelimitAll(num, items)
  {
    hide Delimit, Encode, Valid, Carries;
    if items == [] {
      fs := Nil;
    } else {
      var f := DelimitIsRecord(num, items[0]);
      var rest := ItemsAreRecords(num, items[1..]);
      fs := Cons(f, rest);
    }
  }

  /** Every field is encoded as its records. */
  lemma ValueIsRecords<S>(c: Codec<S>, num: nat, v: Value<S>) returns (fs: Fields)
    requires num <= MAX_FIELD && |EncodeValue(c, num, v)| <= MAX_INT64
    ensures ValidBody(fs) && AreRecordsOf(c, num, v, fs) && EncodeBody(fs) == EncodeValue(c, num, v)
  {
    hide Delimit, EncodeVarint, Groups, Encode, Valid, Carries, Spells, DelimitAll, CarriesAll;
    if v.RepeatedValue? {
      fs := ItemsAreRecords(num, v.items);
    } else if EncodeValue(c, num, v) == [] {
      fs := Nil;
    } else if v.BytesValue? || v.StringValue? || v.NestedValue? {
      var data := if v.BytesValue? then Content(v.bytes) else if v.StringValue? then v.chars else c.encode(v.nested.value);
      var f := DelimitIsRecord(num, data);
      SingleEncodes(f);
      fs := Single(f);
    } else {
      var word := if v.Int32Value? then ToUint64(v.i32) else if v.Int64Value? then ToUint64(v.i64) else 1;
      var f := VarintIsRecord(num, word);
      SingleEncodes(f);
      fs := Single(f);
    }
  }

  /** An encoded message is the concatenation of well-formed records: those of its fields,
      in the order of their numbers, each spelling the field's value, and nothing else. */
  lemma {:induction false} FieldsAreRecords<S>(c: Codec<S>, m: seq<Value<S>>, k: nat) returns (parts: seq<Fields>)
    requires k <= |m| <= MAX_FIELD && |EncodeFrom(c, m, k)| <= MAX_INT64
    ensures |parts| == |m| && ValidBody(Joined(parts, k)) && EncodeBody(Joined(parts, k)) == EncodeFrom(c, m, k)
    ensures forall j :: k <= j < |m| ==> AreRecordsOf(c, j + 1, m[j], parts[j])
    decreases |m| - k
  {
    hide EncodeValue, AreRecordsOf, EncodeBody, ValidBody;
    if k == |m| {
      parts := seq(|m|, i => Nil);
      NothingEncodes();
    } else {
      var fs := ValueIsRecords(c, k + 1, m[k]);
      var rest := FieldsAreRecords(c, m, k + 1);
      parts := rest[k := fs];
      JoinedIgnores(rest, k, fs);
      AppendEncodes(fs, Joined(rest, k + 1));
    }
  }

  lemma NothingEncodes()
    ensures EncodeBody(Nil) == [] && ValidBody(Nil)
  {
  }

  lemma JoinedIgnores(parts: seq<Fields>, k: nat, fs: Fields)
    requires k < |parts|
    ensures Joined(parts[k := fs], k) == Append(fs, Joined(parts, k + 1))
  {
    JoinedTail(parts, k, fs, k + 1);
  }

  lemma {:induction false} JoinedTail(parts: seq<Fields>, k: nat, fs: Fields, j: nat)
    requires k < j <= |parts|
    ensures Joined(parts[k := fs], j) == Joined(parts, j)
    decreases |parts| - j
  {
    if j < |parts| {
      JoinedTail(parts, k, fs, j + 1);
    }
  }

  lemma MessageIsRecords<S>(c: Codec<S>, m: seq<Value<S>>) returns (parts: seq<Fields>)
    requires |m| <= MAX_FIELD && |EncodeMessage(c, m)| <= MAX_INT64
    ensures |parts| == |m| && forall j :: 0 <= j < |m| ==> AreRecordsOf(c, j + 1, m[j], parts[j])
    ensures ValidBody(Joined(parts, 0)) && EncodeMessage(c, m) == EncodeBody(Joined(parts, 0))
  {
    parts := FieldsAreRecords(c, m, 0);
    hide *;
  }

  // ------------------------------------------------------------- small fields, in bytes

  /** A delimited field below number 16, byte by byte; nothing if it is empty. */
  function DelimitedBytes(tag: byte, data: seq<byte>): seq<byte> {
    if data == [] then [] else [tag] + EncodeVarint(|data|) + data
  }

  /** A scalar field below number 16, byte by byte; nothing if it is zero. */
  function ScalarBytes(tag: byte, x: int64): seq<byte> {
    if x == 0 then [] else [tag] + EncodeVarint(if x < 0 then x + TWO_TO_64 else x)
  }

  function FlagBytes(tag: byte, x: bool): seq<byte> {
    if x then [tag, 1] else []
  }

  /** A nested message, by its own encoding; an empty one is written, a missing one is not. */
  function NestedBytes(tag: byte, payload: Option<seq<byte>>): seq<byte> {
    if payload.None? then [] else [tag] + EncodeVarint(|payload.value|) + payload.value
  }

  lemma SmallTag(num: nat)
    requires num < 16
    ensures EncodeVarint(num * 8) == [num * 8] && EncodeVarint(num * 8 + 2) == [num * 8 + 2]
  {
  }

  lemma ValueBytes<S>(c: Codec<S>, num: nat, v: Value<S>)
    requires num < 16
    ensures v.BytesValue? ==> EncodeValue(c, num, v) == DelimitedBytes(num * 8 + 2, Content(v.bytes))
    ensures v.StringValue? ==> EncodeValue(c, num, v) == DelimitedBytes(num * 8 + 2, v.chars)
    ensures v.Int32Value? ==> EncodeValue(c, num, v) == ScalarBytes(num * 8, v.i32)
    ensures v.Int64Value? ==> EncodeValue(c, num, v) == ScalarBytes(num * 8, v.i64)
    ensures v.BoolValue? ==> EncodeValue(c, num, v) == FlagBytes(num * 8, v.flag)
    ensures v.NestedValue? ==>
              EncodeValue(c, num, v) == NestedBytes(num * 8 + 2, if v.nested.None? then None else Some(c.encode(v.nested.value)))
    ensures v.RepeatedValue? ==> EncodeValue(c, num, v) == ItemBytes(num * 8 + 2, v.items)
  {
    SmallTag(num);
    assert EncodeVarint(1) == [1] && [num * 8] + [1] == [num * 8, 1];
    if v.RepeatedValue? {
      AllItemBytes(num, v.items);
    }
    hide EncodeVarint;
  }

  /** One record for every item, empty ones included. */
  function ItemBytes(tag: byte, items: seq<seq<byte>>): seq<byte> {
    if items == [] then [] else [tag] + EncodeVarint(|items[0]|) + items[0] + ItemBytes(tag, items[1..])
  }

  lemma {:induction false} AllItemBytes(num: nat, items: seq<seq<byte>>)
    requires num < 16
    ensures DelimitAll(num, items) == ItemBytes(num * 8 + 2, items)
  {
    SmallTag(num);
    hide EncodeVarint;
    if items != [] {
      AllItemBytes(num, items[1..]);
    }
  }

  /** The last two steps of unfolding a message of known length. */
  lemma LastField<S>(c: Codec<S>, m: seq<Value<S>>, k: nat)
    requires k < |m|
    ensures EncodeFrom(c, m, k) == if k + 1 == |m| then EncodeValue(c, k + 1, m[k]) else EncodeValue(c, k + 1, m[k]) + EncodeFrom(c, m, k + 1)
  {
    hide EncodeValue;
    if k + 1 == |m| {
      assert EncodeFrom(c, m, k + 1) == [];
      assert EncodeValue(c, k + 1, m[k]) + [] == EncodeValue(c, k + 1, m[k]);
    }
  }

  // ------------------------------------------------------------ lengths that do not fit

  /** In unbounded integers: a payload is handed out exactly if it lies in the buffer; of
      the two errors a length of 2^63 or more and an end index of 2^63 or more are an invalid
      length, and a payload that is only cut off is an unexpected end. */
  lemma ReadDelimitedExactly(s: seq<byte>, i: nat, base: nat)
    requires i <= |s| && base + |s| <= MAX_INT64 && ReadVarint(s[i..]).Got?
    ensures var Got(v, n) := ReadVarint(s[i..]);
            var length := v % TWO_TO_64;
            ReadDelimited(s, i, base)
            == if length >= TWO_TO_63 || base + i + n + length >= TWO_TO_63 then Refused(InvalidLength)
               else if i + n + length > |s| then Refused(UnexpectedEOF)
               else Delimited(s[i + n..i + n + length], i + n + length)
  {
    hide ReadVarint;
  }
}
