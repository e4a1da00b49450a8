/**
 What decoding means, said without offsets, buffers or error codes: a byte string is
 accepted exactly when it is the concatenation of records of the wire grammar that fit
 the schema, and the result is the effect of those records, one after the other.
 */
module Meaning {
  import opened Sequences
  import opened Wire
  import opened Skipping
  import opened Schema

  /** The effect of one record on a message; None when the record does not fit. */
  function Apply<S>(c: Codec<S>, schema: seq<Kind>, m: seq<Value<S>>, f: Field): (r: Option<seq<Value<S>>>)
    requires HasSchema(m, schema)
    ensures r.Some? ==> HasSchema(r.value, schema)
  {
    var num := FieldNumber(Groups(f.tag));
    if f.EndMarker? || num <= 0 then None
    else if num > |schema| then Some(m)
    else
      var k := num - 1;
      match schema[k]
      case BytesKind => if f.LengthField? then Some(m[k := BytesValue(Some(f.data))]) else None
      case StringKind => if f.LengthField? then Some(m[k := StringValue(f.data)]) else None
      case RepeatedKind => if f.LengthField? then Some(m[k := RepeatedValue(m[k].items + [f.data])]) else None
      case Int32Kind => if f.VarintField? then Some(m[k := Int32Value(ToInt32(Groups(f.value) % TWO_TO_32))]) else None
      case Int64Kind => if f.VarintField? then Some(m[k := Int64Value(ToInt64(Groups(f.value) % TWO_TO_64))]) else None
      case BoolKind => if f.VarintField? then Some(m[k := BoolValue(Groups(f.value) % TWO_TO_64 != 0)]) else None
      case NestedKind =>
        if !f.LengthField? then None
        else
          var (x, ok) := c.decode(if m[k].nested.Some? then m[k].nested.value else c.zero, f.data);
          if ok then Some(m[k := NestedValue(Some(x))]) else None
  }

  function ApplyAll<S>(c: Codec<S>, schema: seq<Kind>, m: seq<Value<S>>, records: Fields): Option<seq<Value<S>>>
    requires HasSchema(m, schema)
    decreases records
  {
    match records
    case Nil => Some(m)
    case Cons(f, rest) =>
      var r := Apply(c, schema, m, f);
      if r.None? then None else ApplyAll(c, schema, r.value, rest)
  }

  // ------------------------------------------------------- records are decoded so

  lemma StepOnVarint<S>(c: Codec<S>, schema: seq<Kind>, m: seq<Value<S>>, f: Field, rest: seq<byte>, base: nat)
    requires HasSchema(m, schema) && Valid(f) && f.VarintField?
    requires base + |Encode(f) + rest| <= MAX_INT64
    requires 0 < FieldNumber(Groups(f.tag)) <= |schema|
    requires Apply(c, schema, m, f).Some?
    ensures Step(c, schema, m, Encode(f) + rest, base) == Next(Apply(c, schema, m, f).value, |Encode(f)|)
  {
    hide ReadVarint, IsVarint, Groups, FieldNumber;
    TagRead(f, rest);
    ReadVarintComplete(f.value, rest, 0);
    ReadVarintIsFromZero(f.value + rest);
  }

  lemma ReadVarintIsFromZero(s: seq<byte>)
    ensures ReadVarint(s) == ReadVarintFrom(s, 0)
  {
  }

  lemma DelimitedOnLength(f: Field, rest: seq<byte>, base: nat)
    requires Valid(f) && f.LengthField?
    requires base + |Encode(f) + rest| <= MAX_INT64
    ensures ReadDelimited(Encode(f) + rest, |f.tag|, base) == Delimited(f.data, |Encode(f)|)
  {
    hide ReadVarint, IsVarint, Groups;
    TagRead(f, rest);
    Assoc(f.length, f.data, rest);
    ReadVarintComplete(f.length, f.data + rest, 0);
    ReadVarintIsFromZero(f.length + (f.data + rest));
    var i, k := |f.tag|, |f.tag + f.length|;
    assert (Encode(f) + rest)[k..k + |f.data|] == f.data;
  }

  lemma StepOnLength<S>(c: Codec<S>, schema: seq<Kind>, m: seq<Value<S>>, f: Field, rest: seq<byte>, base: nat)
    requires HasSchema(m, schema) && Valid(f) && f.LengthField?
    requires base + |Encode(f) + rest| <= MAX_INT64
    requires 0 < FieldNumber(Groups(f.tag)) <= |schema|
    requires Apply(c, schema, m, f).Some?
    ensures Step(c, schema, m, Encode(f) + rest, base) == Next(Apply(c, schema, m, f).value, |Encode(f)|)
  {
    hide ReadVarint, IsVarint, Groups, FieldNumber, ReadDelimited, Encode;
    TagRead(f, rest);
    DelimitedOnLength(f, rest, base);
  }

  lemma StepOnRecord<S>(c: Codec<S>, schema: seq<Kind>, m: seq<Value<S>>, f: Field, rest: seq<byte>, base: nat)
    requires HasSchema(m, schema) && Valid(f)
    requires base + |Encode(f) + rest| <= MAX_INT64
    requires Apply(c, schema, m, f).Some?
    ensures Encode(f) + rest != []
    ensures Step(c, schema, m, Encode(f) + rest, base) == Next(Apply(c, schema, m, f).value, |Encode(f)|)
  {
    hide Step, IsVarint, Groups, FieldNumber;
    if FieldNumber(Groups(f.tag)) > |schema| {
      UnknownRecordStep(c, schema, m, f, rest, base);
    } else {
      TagThenPayload(f);
      TagRead(f, rest);
      if f.VarintField? {
        StepOnVarint(c, schema, m, f, rest, base);
      } else {
        StepOnLength(c, schema, m, f, rest, base);
      }
    }
  }

  lemma {:induction false} RecordsAreDecoded<S>(c: Codec<S>, schema: seq<Kind>, m: seq<Value<S>>, records: Fields, base: nat)
    requires HasSchema(m, schema) && ValidBody(records)
    requires base + |EncodeBody(records)| <= MAX_INT64
    requires ApplyAll(c, schema, m, records).Some?
    ensures Decode(c, schema, m, EncodeBody(records), base) == Decoded(ApplyAll(c, schema, m, records).value)
    decreases records
  {
    hide Step, Apply, Encode;
    match records {
      case Nil =>
      case Cons(f, tail) =>
        StepOnRecord(c, schema, m, f, EncodeBody(tail), base);
        DropConcat(Encode(f), EncodeBody(tail));
        RecordsAreDecoded(c, schema, Apply(c, schema, m, f).value, tail, base + |Encode(f)|);
    }
  }

  // ---------------------------------------------- what is decoded consists of records

  /** The record of a known field that Step decoded. */
  lemma KnownRecord<S>(c: Codec<S>, schema: seq<Kind>, m: seq<Value<S>>, s: seq<byte>, base: nat) returns (f: Field)
    requires HasSchema(m, schema) && s != [] && base + |s| <= MAX_INT64
    requires Step(c, schema, m, s, base).Next?
    requires FieldNumber(ReadVarint(s).value) <= |schema|
    ensures var Next(m', n) := Step(c, schema, m, s, base);
            Valid(f) && Encode(f) == s[..n] && Apply(c, schema, m, f) == Some(m')
  {
    hide IsVarint, Groups, FieldNumber, ReadVarintFrom, Skip;
    var Got(wire, i) := ReadVarint(s);
    var n := Step(c, schema, m, s, base).n;
    ReadVarintSound(s, 0);
    ReadSlice(s, i);
    var num := FieldNumber(wire);
    if WireTypeOf(schema[num - 1]) == 0 {
      f := VarintField(s[..i], s[i..n]);
    } else {
      var k := i + ReadVarint(s[i..]).n;
      f := LengthField(s[..i], s[i..k], s[k..n]);
      JoinSlices(s, i, k, n);
      Assoc(s[..i], s[i..k], s[k..n]);
    }
    JoinSlices(s, 0, i, n);
  }

  lemma UnknownRecordOf<S>(c: Codec<S>, schema: seq<Kind>, m: seq<Value<S>>, s: seq<byte>, base: nat) returns (f: Field)
    requires HasSchema(m, schema) && s != [] && base + |s| <= MAX_INT64
    requires Step(c, schema, m, s, base).Next?
    requires FieldNumber(ReadVarint(s).value) > |schema|
    ensures var Next(m', n) := Step(c, schema, m, s, base);
            Valid(f) && !f.EndMarker? && Encode(f) == s[..n] && Apply(c, schema, m, f) == Some(m')
  {
    hide IsVarint, Groups, FieldNumber, ReadVarintFrom, Skip;
    var n := Step(c, schema, m, s, base).n;
    f := SkipSound(s);
    TagRead(f, s[n..]);
    Split(s, n);
  }

  lemma {:induction false} DecodedConsistsOfRecords<S>(c: Codec<S>, schema: seq<Kind>, m: seq<Value<S>>, s: seq<byte>, base: nat) returns (records: Fields)
    requires HasSchema(m, schema) && base + |s| <= MAX_INT64
    requires Decode(c, schema, m, s, base).Decoded?
    ensures ValidBody(records) && EncodeBody(records) == s
    ensures ApplyAll(c, schema, m, records) == Some(Decode(c, schema, m, s, base).m)
    decreases |s|
  {
    hide Apply, Valid, Encode, Step, Decode;
    if s == [] {
      records := Nil;
      DecodeNothing(c, schema, m, base);
    } else {
      DecodeUnfolds(c, schema, m, s, base);
      var Next(m', n) := Step(c, schema, m, s, base);
      var f := RecordOf(c, schema, m, s, base);
      var tail := DecodedConsistsOfRecords(c, schema, m', s[n..], base + n);
      records := Cons(f, tail);
      Split(s, n);
    }
  }

  lemma DecodeUnfolds<S>(c: Codec<S>, schema: seq<Kind>, m: seq<Value<S>>, s: seq<byte>, base: nat)
    requires HasSchema(m, schema) && base + |s| <= MAX_INT64 && s != []
    requires Decode(c, schema, m, s, base).Decoded?
    ensures var r := Step(c, schema, m, s, base);
            r.Next? && Decode(c, schema, m, s, base) == Decode(c, schema, r.m, s[r.n..], base + r.n)
  {
    hide Step;
  }

  lemma RecordOf<S>(c: Codec<S>, schema: seq<Kind>, m: seq<Value<S>>, s: seq<byte>, base: nat) returns (f: Field)
    requires HasSchema(m, schema) && s != [] && base + |s| <= MAX_INT64
    requires Step(c, schema, m, s, base).Next?
    ensures var Next(m', n) := Step(c, schema, m, s, base);
            Valid(f) && !f.EndMarker? && Encode(f) == s[..n] && Apply(c, schema, m, f) == Some(m')
  {
    hide ReadVarint, Valid, Encode, StepKnown, StepUnknown;
    if FieldNumber(ReadVarint(s).value) <= |schema| {
      f := KnownRecord(c, schema, m, s, base);
    } else {
      f := UnknownRecordOf(c, schema, m, s, base);
    }
  }

  /** Decoding accepts s with result m' exactly when s is a concatenation of fitting
      records whose effect on m is m'. */
  lemma DecodeExact<S>(c: Codec<S>, schema: seq<Kind>, m: seq<Value<S>>, s: seq<byte>, m': seq<Value<S>>)
    requires HasSchema(m, schema) && |s| <= MAX_INT64
    ensures Decode(c, schema, m, s, 0) == Decoded(m')
       <==> exists records ::
              && ValidBody(records) && EncodeBody(records) == s
              && ApplyAll(c, schema, m, records) == Some(m')
  {
    hide Decode, ValidBody, EncodeBody, ApplyAll;
    if Decode(c, schema, m, s, 0) == Decoded(m') {
      var records := DecodedConsistsOfRecords(c, schema, m, s, 0);
    }
    forall records | ValidBody(records) && EncodeBody(records) == s && ApplyAll(c, schema, m, records) == Some(m')
      ensures Decode(c, schema, m, s, 0) == Decoded(m')
    {
      RecordsAreDecoded(c, schema, m, records, 0);
    }
  }
}
