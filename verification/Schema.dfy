/**
 The meaning of a message on the wire, once for every message type.

 A schema lists the kinds of fields 1, 2, 3, ...; a message is the sequence of their
 values.  Decode says what every generated Unmarshal must do, Encode what every
 Marshal must produce.  The theorems of this module hold for every schema, so also
 for the four message classes, whose methods are proved against Decode and Encode.
 */
module Schema {
  import opened Sequences
  import opened Wire
  import opened Skipping

  datatype Kind = BytesKind | StringKind | RepeatedKind | Int32Kind | Int64Kind | BoolKind | NestedKind

  /** A bytes field is None when the Go slice is nil; a nested message is None when its pointer is. */
  datatype Value<S> =
    | BytesValue(bytes: Option<seq<byte>>)
    | StringValue(chars: seq<byte>)
    | RepeatedValue(items: seq<seq<byte>>)
    | Int32Value(i32: int32)
    | Int64Value(i64: int64)
    | BoolValue(flag: bool)
    | NestedValue(nested: Option<S>)

  /** The codec of a nested message type, which belongs to another package: its zero
      value, its encoding, and decoding into an existing value (with success flag). */
  datatype Codec<!S> = Codec(zero: S, encode: S -> seq<byte>, decode: (S, seq<byte>) -> (S, bool))

  /** For messages without nested messages. */
  const NO_NESTED: Codec<()> := Codec((), x => [], (x, data) => (x, true))

  lemma NoNestedIsLawful()
    ensures Lawful(NO_NESTED)
  {
    forall x: ()
      ensures NO_NESTED.decode(NO_NESTED.zero, NO_NESTED.encode(x)) == (x, true)
    {
      match x { case () => }
    }
  }

  /** What is assumed of it: it decodes what it encodes, and decoding an encoding into
      another value succeeds too. */
  ghost predicate Lawful<S(!new)>(c: Codec<S>) {
    && (forall x :: c.decode(c.zero, c.encode(x)) == (x, true))
    && (forall x, y :: c.decode(y, c.encode(x)).1)
  }

  predicate HasKind<S>(v: Value<S>, kind: Kind) {
    match kind
    case BytesKind => v.BytesValue?
    case StringKind => v.StringValue?
    case RepeatedKind => v.RepeatedValue?
    case Int32Kind => v.Int32Value?
    case Int64Kind => v.Int64Value?
    case BoolKind => v.BoolValue?
    case NestedKind => v.NestedValue?
  }

  predicate HasSchema<S>(m: seq<Value<S>>, schema: seq<Kind>) {
    |m| == |schema| && forall k :: 0 <= k < |m| ==> HasKind(m[k], schema[k])
  }

  function ZeroValue<S>(kind: Kind): (v: Value<S>)
    ensures HasKind(v, kind)
  {
    match kind
    case BytesKind => BytesValue(None)
    case StringKind => StringValue([])
    case RepeatedKind => RepeatedValue([])
    case Int32Kind => Int32Value(0)
    case Int64Kind => Int64Value(0)
    case BoolKind => BoolValue(false)
    case NestedKind => NestedValue(None)
  }

  function Zero<S>(schema: seq<Kind>): (m: seq<Value<S>>)
    ensures HasSchema(m, schema)
  {
    seq(|schema|, k requires 0 <= k < |schema| => ZeroValue(schema[k]))
  }

  // ---------------------------------------------------------------------- decoding

  datatype StepResult<S> =
    | Next(m: seq<Value<S>>, n: nat)
    | Stop(m: seq<Value<S>>, error: Error)

  datatype DelimitedRead =
    | Delimited(data: seq<byte>, n: nat)
    | Refused(error: Error)

  /** A length-delimited payload at offset i of s, where s starts at index `base` of the
      buffer: the source checks that the end index neither wraps nor passes the buffer. */
  function ReadDelimited(s: seq<byte>, i: nat, base: nat): (r: DelimitedRead)
    requires i <= |s| && base + |s| <= MAX_INT64
    ensures r.Delimited? ==> i < r.n <= |s|
  {
    match ReadVarint(s[i..])
    case Failed(e, _) => Refused(e)
    case Got(v, n) =>
      var length := ToInt64(v % TWO_TO_64);
      if length < 0 then Refused(InvalidLength)
      else
        var post := Add64(base + i + n, length);
        if post < 0 then Refused(InvalidLength)
        else if post > base + |s| then Refused(UnexpectedEOF)
        else Delimited(s[i + n..i + n + length], i + n + length)
  }

  function WireTypeOf(kind: Kind): nat {
    if kind in {Int32Kind, Int64Kind, BoolKind} then 0 else 2
  }

  /** A record of known field k whose tag ends at offset i. */
  function StepKnown<S>(c: Codec<S>, schema: seq<Kind>, m: seq<Value<S>>, k: nat, s: seq<byte>, i: nat, base: nat): (r: StepResult<S>)
    requires HasSchema(m, schema)
    requires k < |m| && i <= |s| && base + |s| <= MAX_INT64
    ensures r.Next? ==> i < r.n <= |s|
    ensures HasSchema(r.m, schema) && forall j :: 0 <= j < |m| && j != k ==> r.m[j] == m[j]
  {
    match m[k]
    case BytesValue(_) =>
      (match ReadDelimited(s, i, base)
       case Refused(e) => Stop(m, e)
       case Delimited(data, n) => Next(m[k := BytesValue(Some(data))], n))
    case StringValue(_) =>
      (match ReadDelimited(s, i, base)
       case Refused(e) => Stop(m, e)
       case Delimited(data, n) => Next(m[k := StringValue(data)], n))
    case RepeatedValue(items) =>
      (match ReadDelimited(s, i, base)
       case Refused(e) => Stop(m, e)
       case Delimited(data, n) => Next(m[k := RepeatedValue(items + [data])], n))
    case NestedValue(prev) =>
      (match ReadDelimited(s, i, base)
       case Refused(e) => Stop(m, e)
       case Delimited(data, n) =>
         var (x, ok) := c.decode(if prev.Some? then prev.value else c.zero, data);
         if ok then Next(m[k := NestedValue(Some(x))], n)
         else Stop(m[k := NestedValue(Some(x))], NestedError))
    case Int32Value(_) =>
      (match ReadVarint(s[i..])
       case Failed(e, p) => Stop(m[k := Int32Value(ToInt32(p % TWO_TO_32))], e)
       case Got(v, n) => Next(m[k := Int32Value(ToInt32(v % TWO_TO_32))], i + n))
    case Int64Value(_) =>
      (match ReadVarint(s[i..])
       case Failed(e, p) => Stop(m[k := Int64Value(ToInt64(p % TWO_TO_64))], e)
       case Got(v, n) => Next(m[k := Int64Value(ToInt64(v % TWO_TO_64))], i + n))
    case BoolValue(_) =>
      (match ReadVarint(s[i..])
       case Failed(e, _) => Stop(m, e)
       case Got(v, n) => Next(m[k := BoolValue(v % TWO_TO_64 != 0)], i + n))
  }

  datatype UnknownRead =
    | Passed(n: nat)
    | Blocked(error: Error)

  /** Passing over the record at the start of s, where s starts at index `base` of the buffer. */
  function ReadUnknown(s: seq<byte>, base: nat): (r: UnknownRead)
    requires s != [] && base + |s| <= MAX_INT64
    ensures r.Passed? ==> 0 < r.n <= |s|
  {
    match Skip(s)
    case SkipFailed(e) => Blocked(e)
    case Skipped(n) =>
      if n < 0 || Add64(base, n) < 0 then Blocked(InvalidLength)
      else if Add64(base, n) > base + |s| then Blocked(UnexpectedEOF)
      else Passed(n)
  }

  /** A record of a field the schema does not know. */
  function StepUnknown<S>(m: seq<Value<S>>, s: seq<byte>, base: nat): (r: StepResult<S>)
    requires s != [] && base + |s| <= MAX_INT64
    ensures r.Next? ==> 0 < r.n <= |s|
    ensures r.m == m
  {
    match ReadUnknown(s, base)
    case Blocked(e) => Stop(m, e)
    case Passed(n) => Next(m, n)
  }

  function FieldNumber(wire: nat): int32 {
    ToInt32(wire % TWO_TO_64 / 8 % TWO_TO_32)
  }

  /** One record: the body of the decoding loop. */
  function Step<S>(c: Codec<S>, schema: seq<Kind>, m: seq<Value<S>>, s: seq<byte>, base: nat): (r: StepResult<S>)
    requires HasSchema(m, schema)
    requires s != [] && base + |s| <= MAX_INT64
    ensures r.Next? ==> 0 < r.n <= |s|
    ensures HasSchema(r.m, schema)
  {
    match ReadVarint(s)
    case Failed(e, _) => Stop(m, e)
    case Got(wire, i) =>
      var num := FieldNumber(wire);
      var wireType := wire % 8;
      if wireType == 4 then Stop(m, EndGroup)
      else if num <= 0 then Stop(m, IllegalTag(num, wire % TWO_TO_64))
      else if num <= |schema| then
        if wireType != WireTypeOf(schema[num - 1]) then Stop(m, WrongWireType(wireType, num))
        else StepKnown(c, schema, m, num - 1, s, i, base)
      else StepUnknown(m, s, base)
  }

  // -------------------------------------------------------- Step, one case at a time

  lemma StepByTag<S>(c: Codec<S>, schema: seq<Kind>, m: seq<Value<S>>, s: seq<byte>, base: nat)
    requires HasSchema(m, schema) && s != [] && base + |s| <= MAX_INT64
    requires ReadVarint(s).Got? && ReadVarint(s).value % 8 != 4 && FieldNumber(ReadVarint(s).value) > 0
    ensures var Got(wire, i) := ReadVarint(s);
            var num, wireType := FieldNumber(wire), wire % 8;
            Step(c, schema, m, s, base)
            == if num > |schema| then StepUnknown(m, s, base)
               else if wireType != WireTypeOf(schema[num - 1]) then Stop(m, WrongWireType(wireType, num))
               else StepKnown(c, schema, m, num - 1, s, i, base)
  {
  }

  lemma StepBadTag<S>(c: Codec<S>, schema: seq<Kind>, m: seq<Value<S>>, s: seq<byte>, base: nat)
    requires HasSchema(m, schema) && s != [] && base + |s| <= MAX_INT64
    ensures var r := ReadVarint(s);
            && (r.Failed? ==> Step(c, schema, m, s, base) == Stop(m, r.error))
            && (r.Got? && r.value % 8 == 4 ==> Step(c, schema, m, s, base) == Stop(m, EndGroup))
            && (r.Got? && r.value % 8 != 4 && FieldNumber(r.value) <= 0 ==>
                  Step(c, schema, m, s, base) == Stop(m, IllegalTag(FieldNumber(r.value), r.value % TWO_TO_64)))
  {
  }

  /** The value of a delimited field after a record with the given data. */
  function Received<S>(kind: Kind, prior: Value<S>, data: seq<byte>): Value<S>
    requires HasKind(prior, kind) && kind in {BytesKind, StringKind, RepeatedKind}
  {
    if kind == BytesKind then BytesValue(Some(data))
    else if kind == StringKind then StringValue(data)
    else RepeatedValue(prior.items + [data])
  }

  lemma StepDelimited<S>(c: Codec<S>, schema: seq<Kind>, m: seq<Value<S>>, k: nat, s: seq<byte>, i: nat, base: nat)
    requires HasSchema(m, schema) && k < |m| && i <= |s| && base + |s| <= MAX_INT64
    requires schema[k] in {BytesKind, StringKind, RepeatedKind}
    ensures HasKind(m[k], schema[k])
    ensures StepKnown(c, schema, m, k, s, i, base)
         == match ReadDelimited(s, i, base)
            case Refused(e) => Stop(m, e)
            case Delimited(data, n) => Next(m[k := Received(schema[k], m[k], data)], n)
  {
  }

  lemma StepNested<S>(c: Codec<S>, schema: seq<Kind>, m: seq<Value<S>>, k: nat, s: seq<byte>, i: nat, base: nat)
    requires HasSchema(m, schema) && k < |m| && i <= |s| && base + |s| <= MAX_INT64
    requires schema[k] == NestedKind
    ensures m[k].NestedValue?
    ensures StepKnown(c, schema, m, k, s, i, base)
         == match ReadDelimited(s, i, base)
            case Refused(e) => Stop(m, e)
            case Delimited(data, n) =>
              var (x, ok) := c.decode(if m[k].nested.Some? then m[k].nested.value else c.zero, data);
              if ok then Next(m[k := NestedValue(Some(x))], n) else Stop(m[k := NestedValue(Some(x))], NestedError)
  {
  }

  lemma StepInt32<S>(c: Codec<S>, schema: seq<Kind>, m: seq<Value<S>>, k: nat, s: seq<byte>, i: nat, base: nat)
    requires HasSchema(m, schema) && k < |m| && i <= |s| && base + |s| <= MAX_INT64
    requires schema[k] == Int32Kind
    ensures StepKnown(c, schema, m, k, s, i, base)
         == match ReadVarint(s[i..])
            case Failed(e, p) => Stop(m[k := Int32Value(ToInt32(p % TWO_TO_32))], e)
            case Got(v, n) => Next(m[k := Int32Value(ToInt32(v % TWO_TO_32))], i + n)
  {
  }

  lemma StepInt64<S>(c: Codec<S>, schema: seq<Kind>, m: seq<Value<S>>, k: nat, s: seq<byte>, i: nat, base: nat)
    requires HasSchema(m, schema) && k < |m| && i <= |s| && base + |s| <= MAX_INT64
    requires schema[k] == Int64Kind
    ensures StepKnown(c, schema, m, k, s, i, base)
         == match ReadVarint(s[i..])
            case Failed(e, p) => Stop(m[k := Int64Value(ToInt64(p % TWO_TO_64))], e)
            case Got(v, n) => Next(m[k := Int64Value(ToInt64(v % TWO_TO_64))], i + n)
  {
  }

  lemma StepBool<S>(c: Codec<S>, schema: seq<Kind>, m: seq<Value<S>>, k: nat, s: seq<byte>, i: nat, base: nat)
    requires HasSchema(m, schema) && k < |m| && i <= |s| && base + |s| <= MAX_INT64
    requires schema[k] == BoolKind
    ensures StepKnown(c, schema, m, k, s, i, base)
         == match ReadVarint(s[i..])
            case Failed(e, _) => Stop(m, e)
            case Got(v, n) => Next(m[k := BoolValue(v % TWO_TO_64 != 0)], i + n)
  {
  }

  datatype DecodeResult<S> =
    | Decoded(m: seq<Value<S>>)
    | Stopped(m: seq<Value<S>>, error: Error)

  /** All records of s, which starts at index `base` of the buffer, decoded into m. */
  function Decode<S>(c: Codec<S>, schema: seq<Kind>, m: seq<Value<S>>, s: seq<byte>, base: nat): (r: DecodeResult<S>)
    requires HasSchema(m, schema)
    requires base + |s| <= MAX_INT64
    ensures HasSchema(r.m, schema)
    decreases |s|
  {
    if s == [] then Decoded(m)
    else
      match Step(c, schema, m, s, base)
      case Stop(m', e) => Stopped(m', e)
      case Next(m', n) => Decode(c, schema, m', s[n..], base + n)
  }

  // ------------------------------------------------- the parts of a longer buffer

  lemma ReadDelimitedIgnoresRest(s: seq<byte>, rest: seq<byte>, i: nat, base: nat)
    requires i <= |s| && base + |s + rest| <= MAX_INT64
    requires ReadDelimited(s, i, base).Delimited?
    ensures ReadDelimited(s + rest, i, base) == ReadDelimited(s, i, base)
  {
    hide ReadVarint;
    DropInside(s, rest, i);
    ReadVarintIgnoresRest(s[i..], rest);
  }

  /** A record that decodes does so whatever follows it. */
  lemma StepIgnoresRest<S>(c: Codec<S>, schema: seq<Kind>, m: seq<Value<S>>, s: seq<byte>, rest: seq<byte>, base: nat)
    requires HasSchema(m, schema)
    requires s != [] && base + |s + rest| <= MAX_INT64
    requires Step(c, schema, m, s, base).Next?
    ensures Step(c, schema, m, s + rest, base) == Step(c, schema, m, s, base)
  {
    hide ReadVarint, ReadDelimited, Skip;
    ReadVarintIgnoresRest(s, rest);
    var Got(wire, i) := ReadVarint(s);
    var num := FieldNumber(wire);
    if num <= |schema| {
      DropInside(s, rest, i);
      if WireTypeOf(schema[num - 1]) == 0 {
        ReadVarintIgnoresRest(s[i..], rest);
      } else {
        ReadDelimitedIgnoresRest(s, rest, i, base);
      }
    } else {
      SkipIgnoresRest(s, rest);
    }
  }

  /** Decoding a concatenation is decoding its parts in turn: last value wins, repeated
      fields append, unknown fields and groups are passed over (Protocol Buffers
      Encoding, "Last One Wins"). */
  lemma {:induction false} DecodeConcat<S>(c: Codec<S>, schema: seq<Kind>, m: seq<Value<S>>, a: seq<byte>, b: seq<byte>, base: nat)
    requires HasSchema(m, schema)
    requires base + |a + b| <= MAX_INT64
    requires Decode(c, schema, m, a, base).Decoded?
    ensures Decode(c, schema, m, a + b, base)
         == Decode(c, schema, Decode(c, schema, m, a, base).m, b, base + |a|)
    decreases |a|
  {
    hide Step;
    if a == [] {
      assert a + b == b;
    } else {
      var Next(m', n) := Step(c, schema, m, a, base);
      StepIgnoresRest(c, schema, m, a, b, base);
      DropInside(a, b, n);
      DecodeConcat(c, schema, m', a[n..], b, base + n);
    }
  }

  /** Equal success and message; the error may differ only between "negative length"
      and "unexpected end", both of which say that a length does not fit. */
  ghost predicate SameOutcome<S>(x: DecodeResult<S>, y: DecodeResult<S>) {
    && (x.Decoded? <==> y.Decoded?)
    && x.m == y.m
    && (x.Stopped? && x.error != y.error ==>
          {x.error, y.error} == {InvalidLength, UnexpectedEOF})
  }

  lemma StepBase<S>(c: Codec<S>, schema: seq<Kind>, m: seq<Value<S>>, s: seq<byte>, base: nat)
    requires HasSchema(m, schema)
    requires s != [] && base + |s| <= MAX_INT64
    ensures var x, y := Step(c, schema, m, s, base), Step(c, schema, m, s, 0);
            && (x.Next? || y.Next? ==> x == y)
            && (x.Stop? ==> x.m == y.m && (x.error == y.error || {x.error, y.error} == {InvalidLength, UnexpectedEOF}))
  {
    hide ReadVarint, Skip;
  }

  /** Where in a buffer the records stand matters at most for which of the two
      "does not fit" errors is reported. */
  lemma {:induction false} DecodeBase<S>(c: Codec<S>, schema: seq<Kind>, m: seq<Value<S>>, s: seq<byte>, base: nat)
    requires HasSchema(m, schema)
    requires base + |s| <= MAX_INT64
    ensures SameOutcome(Decode(c, schema, m, s, base), Decode(c, schema, m, s, 0))
    decreases |s|
  {
    hide Step;
    if s != [] {
      StepBase(c, schema, m, s, base);
      var r := Step(c, schema, m, s, base);
      if r.Next? {
        DecodeBase(c, schema, r.m, s[r.n..], base + r.n);
        DecodeBase(c, schema, r.m, s[r.n..], r.n);
      }
    }
  }

  /** Unmarshalling a ++ b is unmarshalling a and then b into the result, up to the choice
      between the two errors of a length in b that does not fit. */
  lemma UnmarshalConcat<S>(c: Codec<S>, schema: seq<Kind>, m: seq<Value<S>>, a: seq<byte>, b: seq<byte>)
    requires HasSchema(m, schema) && |a + b| <= MAX_INT64
    requires Decode(c, schema, m, a, 0).Decoded?
    ensures SameOutcome(Decode(c, schema, m, a + b, 0), Decode(c, schema, Decode(c, schema, m, a, 0).m, b, 0))
  {
    DecodeConcat(c, schema, m, a, b, 0);
    DecodeBase(c, schema, Decode(c, schema, m, a, 0).m, b, |a|);
  }

  /** A record changes no field but the one its tag names. */
  lemma StepChangesOneField<S>(c: Codec<S>, schema: seq<Kind>, m: seq<Value<S>>, s: seq<byte>, base: nat, j: nat)
    requires HasSchema(m, schema) && s != [] && base + |s| <= MAX_INT64 && j < |m|
    requires ReadVarint(s).Failed? || FieldNumber(ReadVarint(s).value) != j + 1
    ensures Step(c, schema, m, s, base).m[j] == m[j]
  {
    hide ReadVarint, FieldNumber, StepKnown, StepUnknown;
  }

  /** A record of the wire grammar for a field number the schema does not use. */
  ghost predicate UnknownRecord(f: Field, schema: seq<Kind>) {
    Valid(f) && !f.EndMarker? && FieldNumber(Groups(f.tag)) > |schema|
  }

  lemma UnknownRecordStep<S>(c: Codec<S>, schema: seq<Kind>, m: seq<Value<S>>, f: Field, rest: seq<byte>, base: nat)
    requires HasSchema(m, schema) && UnknownRecord(f, schema)
    requires base + |Encode(f) + rest| <= MAX_INT64
    ensures Encode(f) + rest != []
    ensures Step(c, schema, m, Encode(f) + rest, base) == Next(m, |Encode(f)|)
  {
    hide ReadVarint, Skip, Groups;
    TagRead(f, rest);
    SkipComplete(f, rest);
  }

  lemma UnknownRecordSkipped<S>(c: Codec<S>, schema: seq<Kind>, m: seq<Value<S>>, f: Field, rest: seq<byte>, base: nat)
    requires HasSchema(m, schema) && UnknownRecord(f, schema)
    requires base + |Encode(f) + rest| <= MAX_INT64
    ensures Decode(c, schema, m, Encode(f) + rest, base) == Decode(c, schema, m, rest, base + |Encode(f)|)
  {
    hide Step, Encode;
    UnknownRecordStep(c, schema, m, f, rest, base);
    DropConcat(Encode(f), rest);
  }

  /** Unknown records of any wire type, groups nested to any depth included, may be
      inserted at any record boundary without changing the decoded message. */
  lemma UnknownRecordsAreIgnored<S>(c: Codec<S>, schema: seq<Kind>, m: seq<Value<S>>, a: seq<byte>, f: Field, b: seq<byte>)
    requires HasSchema(m, schema) && UnknownRecord(f, schema)
    requires |a + Encode(f) + b| <= MAX_INT64
    requires Decode(c, schema, m, a, 0).Decoded?
    ensures SameOutcome(Decode(c, schema, m, a + Encode(f) + b, 0), Decode(c, schema, m, a + b, 0))
  {
    hide Decode, Encode;
    var m' := Decode(c, schema, m, a, 0).m;
    Assoc(a, Encode(f), b);
    DecodeConcat(c, schema, m, a, Encode(f) + b, 0);
    DecodeConcat(c, schema, m, a, b, 0);
    UnknownRecordSkipped(c, schema, m', f, b, |a|);
    DecodeBase(c, schema, m', b, |a| + |Encode(f)|);
    DecodeBase(c, schema, m', b, |a|);
  }

  // ---------------------------------------------------------------------- encoding

  function Delimit(num: nat, data: seq<byte>): (s: seq<byte>)
    ensures |s| > |data|
  {
    EncodeVarint(num * 8 + 2) + EncodeVarint(|data|) + data
  }

  lemma DelimitSize(num: nat, data: seq<byte>)
    requires num < 16 && |data| < TWO_TO_64
    ensures |Delimit(num, data)| == 1 + |data| + Sov(|data|)
  {
    SovIsEncodedLength(|data|);
  }

  lemma VarintFieldSize(num: nat, v: uint64)
    requires num < 16
    ensures |EncodeVarint(num * 8) + EncodeVarint(v)| == 1 + Sov(v)
  {
    SovIsEncodedLength(v);
  }

  function DelimitAll(num: nat, items: seq<seq<byte>>): seq<byte> {
    if items == [] then [] else Delimit(num, items[0]) + DelimitAll(num, items[1..])
  }

  lemma {:induction false} DelimitAllSuffix(num: nat, items: seq<seq<byte>>, k: nat)
    requires k <= |items|
    ensures |DelimitAll(num, items[k..])| <= |DelimitAll(num, items)|
  {
    if k > 0 {
      assert items[1..][k - 1..] == items[k..];
      DelimitAllSuffix(num, items[1..], k - 1);
    } else {
      assert items[0..] == items;
    }
  }

  function DelimitNonEmpty(num: nat, data: seq<byte>): (s: seq<byte>)
    ensures |s| >= |data|
  {
    if data == [] then [] else Delimit(num, data)
  }

  function VarintNonZero(num: nat, v: uint64): seq<byte> {
    if v == 0 then [] else EncodeVarint(num * 8) + EncodeVarint(v)
  }

  /** The content of a bytes field; a nil slice has length zero. */
  function Content(b: Option<seq<byte>>): seq<byte> {
    if b.Some? then b.value else []
  }

  /** Field `num` on the wire; zero values are left out (proto3). */
  function EncodeValue<S>(c: Codec<S>, num: nat, v: Value<S>): seq<byte> {
    match v
    case BytesValue(b) => DelimitNonEmpty(num, Content(b))
    case StringValue(t) => DelimitNonEmpty(num, t)
    case RepeatedValue(items) => DelimitAll(num, items)
    case Int32Value(x) => VarintNonZero(num, ToUint64(x))
    case Int64Value(x) => VarintNonZero(num, ToUint64(x))
    case BoolValue(x) => VarintNonZero(num, if x then 1 else 0)
    case NestedValue(x) => if x.None? then [] else Delimit(num, c.encode(x.value))
  }

  /** The fields from number k + 1 on, in order. */
  function EncodeFrom<S>(c: Codec<S>, m: seq<Value<S>>, k: nat): seq<byte>
    requires k <= |m|
    decreases |m| - k
  {
    if k == |m| then [] else EncodeValue(c, k + 1, m[k]) + EncodeFrom(c, m, k + 1)
  }

  function EncodeMessage<S>(c: Codec<S>, m: seq<Value<S>>): seq<byte> {
    EncodeFrom(c, m, 0)
  }

  /** The size of an encoding, field by field. */
  lemma EncodedSize<S>(c: Codec<S>, m: seq<Value<S>>, k: nat)
    requires k < |m|
    ensures |EncodeFrom(c, m, k)| == |EncodeValue(c, k + 1, m[k])| + |EncodeFrom(c, m, k + 1)|
    ensures k + 1 == |m| ==> EncodeFrom(c, m, k + 1) == []
  {
  }

  /** What an encoded value does to the value already there: the last value wins, items
      are appended, nested messages are merged, and a zero value changes nothing. */
  function MergeValue<S>(c: Codec<S>, prior: Value<S>, v: Value<S>): Value<S>
    requires exists kind :: HasKind(prior, kind) && HasKind(v, kind)
  {
    match v
    case BytesValue(b) => if Content(b) == [] then prior else v
    case StringValue(t) => if t == [] then prior else v
    case RepeatedValue(items) => RepeatedValue(prior.items + items)
    case Int32Value(x) => if x == 0 then prior else v
    case Int64Value(x) => if x == 0 then prior else v
    case BoolValue(x) => BoolValue(prior.flag || x)
    case NestedValue(x) =>
      if x.None? then prior
      else NestedValue(Some(c.decode(if prior.nested.Some? then prior.nested.value else c.zero, c.encode(x.value)).0))
  }

  /** What survives the wire: an empty bytes field comes back nil. */
  function NormalValue<S>(v: Value<S>): Value<S> {
    if v == BytesValue(Some([])) then BytesValue(None) else v
  }

  // -------------------------------------------------------------------- round trip

  /** Field numbers are below 2^29, so a tag fits its 32-bit field number. */
  const MAX_FIELD := 0x1fff_ffff

  lemma KnownTagStep<S>(c: Codec<S>, schema: seq<Kind>, m: seq<Value<S>>, k: nat, rest: seq<byte>, base: nat)
    requires HasSchema(m, schema) && k < |schema| <= MAX_FIELD
    requires var tag := EncodeVarint((k + 1) * 8 + WireTypeOf(schema[k])); base + |tag + rest| <= MAX_INT64
    ensures var tag := EncodeVarint((k + 1) * 8 + WireTypeOf(schema[k]));
            && Step(c, schema, m, tag + rest, base) == StepKnown(c, schema, m, k, tag + rest, |tag|, base)
            && (tag + rest)[|tag|..] == rest
  {
    hide ReadVarint, EncodeVarint, StepKnown;
    var wire := (k + 1) * 8 + WireTypeOf(schema[k]);
    VarintRoundTrip(wire, rest);
    DropConcat(EncodeVarint(wire), rest);
    assert FieldNumber(wire) == k + 1;
  }

  lemma DelimitedRoundTrip(tag: seq<byte>, data: seq<byte>, rest: seq<byte>, base: nat)
    requires base + |tag + EncodeVarint(|data|) + data + rest| <= MAX_INT64
    ensures ReadDelimited(tag + EncodeVarint(|data|) + data + rest, |tag|, base)
         == Delimited(data, |tag + EncodeVarint(|data|) + data|)
  {
    hide ReadVarint, EncodeVarint;
    var length := EncodeVarint(|data|);
    var s := tag + length + data + rest;
    assert s[|tag|..] == length + (data + rest);
    VarintRoundTrip(|data|, data + rest);
    assert s[|tag| + |length|..|tag| + |length| + |data|] == data;
  }

  /** One delimited record of a known field is read back whole. */
  lemma DelimitStep<S>(c: Codec<S>, schema: seq<Kind>, m: seq<Value<S>>, k: nat, data: seq<byte>, rest: seq<byte>, base: nat)
    requires HasSchema(m, schema) && k < |schema| <= MAX_FIELD && WireTypeOf(schema[k]) == 2
    requires base + |Delimit(k + 1, data) + rest| <= MAX_INT64
    ensures var s := Delimit(k + 1, data) + rest; var i := |EncodeVarint((k + 1) * 8 + 2)|;
            && s != [] && i <= |s|
            && Step(c, schema, m, s, base) == StepKnown(c, schema, m, k, s, i, base)
            && ReadDelimited(s, i, base) == Delimited(data, |Delimit(k + 1, data)|)
            && s[|Delimit(k + 1, data)|..] == rest
  {
    hide ReadVarint, EncodeVarint, StepKnown, ReadDelimited, Step;
    var tag, length := EncodeVarint((k + 1) * 8 + 2), EncodeVarint(|data|);
    DelimitedRoundTrip(tag, data, rest, base);
    assert tag + length + data + rest == tag + (length + data + rest);
    KnownTagStep(c, schema, m, k, length + data + rest, base);
    DropConcat(Delimit(k + 1, data), rest);
  }

  /** One varint record of a known field is read back whole. */
  lemma VarintStep<S>(c: Codec<S>, schema: seq<Kind>, m: seq<Value<S>>, k: nat, v: uint64, rest: seq<byte>, base: nat)
    requires HasSchema(m, schema) && k < |schema| <= MAX_FIELD && WireTypeOf(schema[k]) == 0
    requires base + |EncodeVarint((k + 1) * 8) + EncodeVarint(v) + rest| <= MAX_INT64
    ensures var tag := EncodeVarint((k + 1) * 8); var s := tag + EncodeVarint(v) + rest;
            && Step(c, schema, m, s, base) == StepKnown(c, schema, m, k, s, |tag|, base)
            && ReadVarint(s[|tag|..]) == Got(v, |EncodeVarint(v)|)
            && s[|tag + EncodeVarint(v)|..] == rest
  {
    hide ReadVarint, EncodeVarint, StepKnown, Step;
    var tag := EncodeVarint((k + 1) * 8);
    Assoc(tag, EncodeVarint(v), rest);
    KnownTagStep(c, schema, m, k, EncodeVarint(v) + rest, base);
    VarintRoundTrip(v, rest);
    DropConcat(tag + EncodeVarint(v), rest);
  }

  lemma DecodeStep<S>(c: Codec<S>, schema: seq<Kind>, m: seq<Value<S>>, s: seq<byte>, base: nat)
    requires HasSchema(m, schema) && s != [] && base + |s| <= MAX_INT64
    requires Step(c, schema, m, s, base).Next?
    ensures var Next(m', n) := Step(c, schema, m, s, base);
            Decode(c, schema, m, s, base) == Decode(c, schema, m', s[n..], base + n)
  {
    hide Step;
  }

  /** One item of a repeated field is appended. */
  lemma ItemStep<S>(c: Codec<S>, schema: seq<Kind>, m: seq<Value<S>>, k: nat, item: seq<byte>, rest: seq<byte>, base: nat)
    requires HasSchema(m, schema) && k < |schema| <= MAX_FIELD && schema[k] == RepeatedKind
    requires base + |Delimit(k + 1, item) + rest| <= MAX_INT64
    ensures var m' := m[k := RepeatedValue(m[k].items + [item])];
            && HasSchema(m', schema)
            && Decode(c, schema, m, Delimit(k + 1, item) + rest, base)
            == Decode(c, schema, m', rest, base + |Delimit(k + 1, item)|)
  {
    hide Step, Decode, Delimit, EncodeVarint, ReadDelimited;
    DelimitStep(c, schema, m, k, item, rest, base);
    DecodeStep(c, schema, m, Delimit(k + 1, item) + rest, base);
  }

  /** The items of a repeated field are appended one by one. */
  lemma {:induction false} RepeatedRoundTrip<S>(c: Codec<S>, schema: seq<Kind>, m: seq<Value<S>>, k: nat, items: seq<seq<byte>>, rest: seq<byte>, base: nat)
    requires HasSchema(m, schema) && k < |schema| <= MAX_FIELD && schema[k] == RepeatedKind
    requires base + |DelimitAll(k + 1, items) + rest| <= MAX_INT64
    ensures Decode(c, schema, m, DelimitAll(k + 1, items) + rest, base)
         == Decode(c, schema, m[k := RepeatedValue(m[k].items + items)], rest, base + |DelimitAll(k + 1, items)|)
    decreases |items|
  {
    hide Step, Decode, Delimit, EncodeVarint;
    if items == [] {
      assert DelimitAll(k + 1, items) + rest == rest;
      assert m[k].items + items == m[k].items;
      assert m[k := m[k]] == m;
    } else {
      var head, tail := Delimit(k + 1, items[0]), DelimitAll(k + 1, items[1..]);
      Assoc(head, tail, rest);
      ItemStep(c, schema, m, k, items[0], tail + rest, base);
      var m' := m[k := RepeatedValue(m[k].items + [items[0]])];
      RepeatedRoundTrip(c, schema, m', k, items[1..], rest, base + |head|);
      assert m[k].items + [items[0]] + items[1..] == m[k].items + items;
      assert m'[k := RepeatedValue(m[k].items + items)] == m[k := RepeatedValue(m[k].items + items)];
    }
  }

  lemma DelimitedValueStep<S(!new)>(c: Codec<S>, schema: seq<Kind>, m: seq<Value<S>>, k: nat, v: Value<S>, rest: seq<byte>, base: nat)
    requires Lawful(c)
    requires HasSchema(m, schema) && k < |schema| <= MAX_FIELD
    requires HasKind(v, schema[k])
    requires v.BytesValue? || v.StringValue? || v.NestedValue?
    requires base + |EncodeValue(c, k + 1, v) + rest| <= MAX_INT64 && EncodeValue(c, k + 1, v) != []
    ensures Step(c, schema, m, EncodeValue(c, k + 1, v) + rest, base)
         == Next(m[k := MergeValue(c, m[k], v)], |EncodeValue(c, k + 1, v)|)
  {
    hide Step, Delimit, EncodeVarint, ReadDelimited;
    match v {
      case BytesValue(b) => DelimitStep(c, schema, m, k, b.value, rest, base);
      case StringValue(t) => DelimitStep(c, schema, m, k, t, rest, base);
      case NestedValue(x) => DelimitStep(c, schema, m, k, c.encode(x.value), rest, base);
    }
  }

  lemma VarintValueStep<S>(c: Codec<S>, schema: seq<Kind>, m: seq<Value<S>>, k: nat, v: Value<S>, rest: seq<byte>, base: nat)
    requires HasSchema(m, schema) && k < |schema| <= MAX_FIELD
    requires HasKind(v, schema[k])
    requires v.Int32Value? || v.Int64Value? || v.BoolValue?
    requires base + |EncodeValue(c, k + 1, v) + rest| <= MAX_INT64 && EncodeValue(c, k + 1, v) != []
    ensures Step(c, schema, m, EncodeValue(c, k + 1, v) + rest, base)
         == Next(m[k := MergeValue(c, m[k], v)], |EncodeValue(c, k + 1, v)|)
  {
    hide Step, EncodeVarint, ReadVarint;
    match v {
      case Int32Value(x) =>
        VarintStep(c, schema, m, k, ToUint64(x), rest, base);
        SignExtensionRoundTrip(x);
      case Int64Value(x) =>
        VarintStep(c, schema, m, k, ToUint64(x), rest, base);
        SignExtensionRoundTrip(x);
      case BoolValue(_) =>
        OneIsVarint();
        VarintStep(c, schema, m, k, 1, rest, base);
    }
  }

  lemma OneIsVarint()
    ensures EncodeVarint(1) == [1] && Sov(1) == 1
  {
    SovIsEncodedLength(1);
  }

  /** Only values that change nothing are left out. */
  lemma NothingWritten<S>(c: Codec<S>, num: nat, v: Value<S>, prior: Value<S>, kind: Kind)
    requires HasKind(v, kind) && HasKind(prior, kind) && !v.RepeatedValue?
    requires EncodeValue(c, num, v) == []
    ensures MergeValue(c, prior, v) == prior
  {
    hide Delimit, EncodeVarint;
  }

  /** A field that decodes in one record. */
  lemma SingleRoundTrip<S(!new)>(c: Codec<S>, schema: seq<Kind>, m: seq<Value<S>>, k: nat, v: Value<S>, rest: seq<byte>, base: nat)
    requires Lawful(c)
    requires HasSchema(m, schema) && k < |schema| <= MAX_FIELD
    requires HasKind(v, schema[k])
    requires !v.RepeatedValue? && EncodeValue(c, k + 1, v) != []
    requires base + |EncodeValue(c, k + 1, v) + rest| <= MAX_INT64
    ensures Decode(c, schema, m, EncodeValue(c, k + 1, v) + rest, base)
         == Decode(c, schema, m[k := MergeValue(c, m[k], v)], rest, base + |EncodeValue(c, k + 1, v)|)
  {
    hide Step, Decode, EncodeValue, Lawful;
    if v.BytesValue? || v.StringValue? || v.NestedValue? {
      DelimitedValueStep(c, schema, m, k, v, rest, base);
    } else {
      VarintValueStep(c, schema, m, k, v, rest, base);
    }
    DecodeStep(c, schema, m, EncodeValue(c, k + 1, v) + rest, base);
    DropConcat(EncodeValue(c, k + 1, v), rest);
  }

  /** Decoding one encoded field merges it into that field and touches nothing else. */
  lemma ValueRoundTrip<S(!new)>(c: Codec<S>, schema: seq<Kind>, m: seq<Value<S>>, k: nat, v: Value<S>, rest: seq<byte>, base: nat)
    requires Lawful(c)
    requires HasSchema(m, schema) && k < |schema| <= MAX_FIELD
    requires HasKind(v, schema[k])
    requires base + |EncodeValue(c, k + 1, v) + rest| <= MAX_INT64
    ensures Decode(c, schema, m, EncodeValue(c, k + 1, v) + rest, base)
         == Decode(c, schema, m[k := MergeValue(c, m[k], v)], rest, base + |EncodeValue(c, k + 1, v)|)
  {
    hide Decode, Lawful, DelimitAll, Delimit, EncodeVarint;
    if v.RepeatedValue? {
      RepeatedRoundTrip(c, schema, m, k, v.items, rest, base);
    } else if EncodeValue(c, k + 1, v) == [] {
      hide EncodeValue;
      NothingWritten(c, k + 1, v, m[k], schema[k]);
      assert [] + rest == rest;
      assert m[k := m[k]] == m;
    } else {
      hide EncodeValue;
      SingleRoundTrip(c, schema, m, k, v, rest, base);
    }
  }

  lemma DecodeNothing<S>(c: Codec<S>, schema: seq<Kind>, m: seq<Value<S>>, base: nat)
    requires HasSchema(m, schema) && base <= MAX_INT64
    ensures Decode(c, schema, m, [], base) == Decoded(m)
  {
  }

  /** The message m merged into `prior`, from field number k + 1 on. */
  function MergeFrom<S>(c: Codec<S>, schema: seq<Kind>, prior: seq<Value<S>>, m: seq<Value<S>>, k: nat): (r: seq<Value<S>>)
    requires HasSchema(prior, schema) && HasSchema(m, schema) && k <= |schema|
    ensures |r| == |schema|
    ensures forall j :: 0 <= j < |schema| ==> r[j] == if j < k then prior[j] else MergeValue(c, prior[j], m[j])
  {
    seq(|schema|, j requires 0 <= j < |schema| => if j < k then prior[j] else MergeValue(c, prior[j], m[j]))
  }

  function Merge<S>(c: Codec<S>, schema: seq<Kind>, prior: seq<Value<S>>, m: seq<Value<S>>): (r: seq<Value<S>>)
    requires HasSchema(prior, schema) && HasSchema(m, schema)
    ensures HasSchema(r, schema)
  {
    MergeFrom(c, schema, prior, m, 0)
  }

  lemma {:induction false} FieldsMerge<S(!new)>(c: Codec<S>, schema: seq<Kind>, prior: seq<Value<S>>, m: seq<Value<S>>, k: nat, base: nat)
    requires Lawful(c)
    requires HasSchema(prior, schema) && HasSchema(m, schema) && k <= |schema| <= MAX_FIELD
    requires base + |EncodeFrom(c, m, k)| <= MAX_INT64
    ensures Decode(c, schema, prior, EncodeFrom(c, m, k), base) == Decoded(MergeFrom(c, schema, prior, m, k))
    decreases |m| - k
  {
    hide Step, Decode, EncodeValue, MergeValue, Lawful;
    if k == |m| {
      DecodeNothing(c, schema, prior, base);
      assert MergeFrom(c, schema, prior, m, k) == prior;
    } else {
      var prior' := prior[k := MergeValue(c, prior[k], m[k])];
      ValueRoundTrip(c, schema, prior, k, m[k], EncodeFrom(c, m, k + 1), base);
      MergeKeepsKind(c, prior[k], m[k], schema[k]);
      FieldsMerge(c, schema, prior', m, k + 1, base + |EncodeValue(c, k + 1, m[k])|);
      assert MergeFrom(c, schema, prior, m, k) == MergeFrom(c, schema, prior', m, k + 1);
    }
  }

  lemma MergeKeepsKind<S>(c: Codec<S>, prior: Value<S>, v: Value<S>, kind: Kind)
    requires HasKind(prior, kind) && HasKind(v, kind)
    ensures HasKind(MergeValue(c, prior, v), kind)
  {
  }

  /** Unmarshalling what Marshal wrote into any message merges the two ("Last One Wins"). */
  lemma UnmarshalMerges<S(!new)>(c: Codec<S>, schema: seq<Kind>, prior: seq<Value<S>>, m: seq<Value<S>>)
    requires Lawful(c)
    requires HasSchema(prior, schema) && HasSchema(m, schema) && |schema| <= MAX_FIELD
    requires |EncodeMessage(c, m)| <= MAX_INT64
    ensures Decode(c, schema, prior, EncodeMessage(c, m), 0) == Decoded(Merge(c, schema, prior, m))
  {
    hide Decode, EncodeFrom, HasSchema, Lawful;
    FieldsMerge(c, schema, prior, m, 0, 0);
  }

  /** Decoding an encoded message into a fresh one gives the message back. */
  lemma RoundTrip<S(!new)>(c: Codec<S>, schema: seq<Kind>, m: seq<Value<S>>)
    requires Lawful(c)
    requires HasSchema(m, schema) && |schema| <= MAX_FIELD
    requires |EncodeMessage(c, m)| <= MAX_INT64
    ensures var r := Decode(c, schema, Zero(schema), EncodeMessage(c, m), 0);
            && r.Decoded? && |r.m| == |m|
            && forall k :: 0 <= k < |m| ==> r.m[k] == NormalValue(m[k])
  {
    UnmarshalMerges(c, schema, Zero(schema), m);
    forall k | 0 <= k < |m|
      ensures MergeValue(c, Zero(schema)[k], m[k]) == NormalValue(m[k])
    {
      MergeIntoZero(c, m[k], schema[k]);
    }
  }

  lemma MergeIntoZero<S(!new)>(c: Codec<S>, v: Value<S>, kind: Kind)
    requires Lawful(c) && HasKind(v, kind)
    ensures MergeValue(c, ZeroValue(kind), v) == NormalValue(v)
  {
    if v.RepeatedValue? {
      assert [] + v.items == v.items;
    }
  }
}
