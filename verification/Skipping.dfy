/**
 skipCaService and skipIstioca: stepping over one record of an unknown field.

 Skip and SkipGroup say what the source computes, error by error and with its
 wrapping int arithmetic.  Field is an independent grammar of wire records
 (Protocol Buffers Encoding, "Message Structure" and "Groups"); the main theorem,
 SkipExact, says that the skipper accepts exactly the records of that grammar and
 returns their length.
 */
module Skipping {
  import opened Sequences
  import opened Wire

  datatype SkipResult =
    | Skipped(n: int64)
    | SkipFailed(error: Error)
    | Unreachable // the panic behind the loop of the source

  /** One record at the start of s. */
  function Skip(s: seq<byte>): (r: SkipResult)
    requires |s| <= MAX_INT64
    ensures r.Unreachable? <==> s == []
    ensures r.Skipped? ==> r.n != 0 && (r.n < 0 ==> r.n + TWO_TO_64 <= |s| + 8)
    decreases |s|, |s| + 1
  {
    if s == [] then Unreachable
    else
      match ReadVarint(s)
      case Failed(e, _) => SkipFailed(e)
      case Got(wire, i) =>
        var wireType := wire % 8;
        if wireType == 0 then
          match ReadVarint(s[i..])
          case Failed(e, _) => SkipFailed(e)
          case Got(_, n) => Skipped(i + n)
        else if wireType == 1 then Skipped(Add64(i, 8))
        else if wireType == 2 then
          match ReadVarint(s[i..])
          case Failed(e, _) => SkipFailed(e)
          case Got(v, n) =>
            var length := ToInt64(v % TWO_TO_64);
            if length < 0 then SkipFailed(InvalidLength)
            else
              var end := Add64(i + n, length);
              if end < 0 then SkipFailed(InvalidLength) else Skipped(end)
        else if wireType == 3 then SkipGroup(s, i)
        else if wireType == 4 then Skipped(i)
        else if wireType == 5 then Skipped(Add64(i, 4))
        else SkipFailed(IllegalWireType(wireType))
  }

  /** The records of a group, from index i up to and including its end marker. */
  function SkipGroup(s: seq<byte>, i: int64): (r: SkipResult)
    requires |s| <= MAX_INT64 && 0 < i
    ensures !r.Unreachable?
    ensures r.Skipped? ==> i < r.n <= |s|
    decreases |s|, if i <= |s| then |s| - i else 0
  {
    if i >= |s| then SkipFailed(UnexpectedEOF)
    else
      match ReadVarint(s[i..])
      case Failed(e, _) => SkipFailed(e)
      case Got(wire, n) =>
        if wire % 8 == 4 then Skipped(i + n)
        else
          var inner := Skip(s[i..]);
          if !inner.Skipped? then inner
          else
            var next := Add64(i, inner.n);
            if next < 0 then SkipFailed(InvalidLength) else SkipGroup(s, next)
  }

  // ------------------------------------------------------ grammar of wire records

  /** A record as raw parts: varints keep their bytes, so padded ones are covered. */
  datatype Field =
    | VarintField(tag: seq<byte>, value: seq<byte>)
    | Fixed64Field(tag: seq<byte>, data: seq<byte>)
    | LengthField(tag: seq<byte>, length: seq<byte>, data: seq<byte>)
    | GroupField(tag: seq<byte>, body: Fields, end: seq<byte>)
    | EndMarker(tag: seq<byte>)
    | Fixed32Field(tag: seq<byte>, data: seq<byte>)

  datatype Fields = Nil | Cons(head: Field, tail: Fields)

  predicate IsTag(tag: seq<byte>, wireType: nat) {
    IsVarint(tag, MAX_VARINT) && Groups(tag) % 8 == wireType
  }

  /** A record the skipper may meet.  A lone end marker is one (the source returns
      its length); inside a group it is what ends the group. */
  predicate Valid(f: Field) {
    match f
    case VarintField(tag, value) => IsTag(tag, 0) && IsVarint(value, MAX_VARINT)
    case Fixed64Field(tag, data) => IsTag(tag, 1) && |data| == 8
    case LengthField(tag, length, data) =>
      IsTag(tag, 2) && IsVarint(length, MAX_VARINT) && Groups(length) % TWO_TO_64 == |data|
    case GroupField(tag, body, end) => IsTag(tag, 3) && ValidBody(body) && IsTag(end, 4)
    case EndMarker(tag) => IsTag(tag, 4)
    case Fixed32Field(tag, data) => IsTag(tag, 5) && |data| == 4
  }

  predicate ValidBody(body: Fields) {
    match body
    case Nil => true
    case Cons(head, tail) => !head.EndMarker? && Valid(head) && ValidBody(tail)
  }

  function Encode(f: Field): seq<byte> {
    match f
    case VarintField(tag, value) => tag + value
    case Fixed64Field(tag, data) => tag + data
    case LengthField(tag, length, data) => tag + length + data
    case GroupField(tag, body, end) => tag + EncodeBody(body) + end
    case EndMarker(tag) => tag
    case Fixed32Field(tag, data) => tag + data
  }

  function EncodeBody(body: Fields): seq<byte> {
    match body
    case Nil => []
    case Cons(head, tail) => Encode(head) + EncodeBody(tail)
  }

  /** The bytes of a record behind its tag. */
  function Payload(f: Field): seq<byte> {
    match f
    case VarintField(_, value) => value
    case Fixed64Field(_, data) => data
    case LengthField(_, length, data) => length + data
    case GroupField(_, body, end) => EncodeBody(body) + end
    case EndMarker(_) => []
    case Fixed32Field(_, data) => data
  }

  lemma {:induction false} TagThenPayload(f: Field)
    ensures Encode(f) == f.tag + Payload(f)
  {
    match f {
      case LengthField(tag, length, data) => Assoc(tag, length, data);
      case GroupField(tag, body, end) => Assoc(tag, EncodeBody(body), end);
      case _ =>
    }
  }

  /** How Skip starts on a record: it reads the tag. */
  lemma {:induction false} TagRead(f: Field, rest: seq<byte>)
    requires Valid(f)
    ensures ReadVarint(Encode(f) + rest) == Got(Groups(f.tag), |f.tag|)
    ensures (Encode(f) + rest)[|f.tag|..] == Payload(f) + rest
  {
    TagThenPayload(f);
    Assoc(f.tag, Payload(f), rest);
    ReadVarintComplete(f.tag, Payload(f) + rest, 0);
    DropConcat(f.tag, Payload(f) + rest);
  }

  // ------------------------------------------------------------------ completeness

  /** Every record of the grammar is skipped exactly, whatever follows it. */
  lemma {:induction false} SkipComplete(f: Field, rest: seq<byte>)
    requires Valid(f)
    requires |Encode(f) + rest| <= MAX_INT64
    ensures Skip(Encode(f) + rest) == Skipped(|Encode(f)|)
    decreases f, 1
  {
    hide SkipGroup, ReadVarintFrom, IsVarint, Groups;
    TagRead(f, rest);
    TagThenPayload(f);
    match f {
      case VarintField(_, value) => ReadVarintComplete(value, rest, 0);
      case LengthField(_, length, data) =>
        Assoc(length, data, rest);
        ReadVarintComplete(length, data + rest, 0);
      case GroupField(tag, body, end) =>
        Assoc(EncodeBody(body), end, rest);
        SkipBodyComplete(Encode(f) + rest, |tag|, body, end, rest);
      case _ =>
    }
  }

  lemma {:induction false} SkipBodyComplete(s: seq<byte>, i: int64, body: Fields, end: seq<byte>, rest: seq<byte>)
    requires |s| <= MAX_INT64 && 0 < i <= |s|
    requires ValidBody(body) && IsTag(end, 4)
    requires s[i..] == EncodeBody(body) + (end + rest)
    ensures SkipGroup(s, i) == Skipped(i + |EncodeBody(body)| + |end|)
    decreases body, 0
  {
    hide Skip, SkipGroup, ReadVarintFrom, IsVarint, Groups;
    match body {
      case Nil =>
        assert EncodeBody(body) + (end + rest) == end + rest;
        ReadVarintComplete(end, rest, 0);
        SkipGroupEnd(s, i);
      case Cons(head, tail) =>
        var after := EncodeBody(tail) + (end + rest);
        Assoc(Encode(head), EncodeBody(tail), end + rest);
        SkipComplete(head, after);
        TagRead(head, after);
        SkipGroupStep(s, i, Groups(head.tag), |Encode(head)|);
        DropConcat(Encode(head), after);
        DropDrop(s, i, |Encode(head)|);
        SkipBodyComplete(s, i + |Encode(head)|, tail, end, rest);
    }
  }

  lemma SkipGroupEnd(s: seq<byte>, i: int64)
    requires |s| <= MAX_INT64 && 0 < i < |s|
    requires ReadVarint(s[i..]).Got? && ReadVarint(s[i..]).value % 8 == 4
    ensures SkipGroup(s, i) == Skipped(i + ReadVarint(s[i..]).n)
  {
  }

  lemma SkipGroupStep(s: seq<byte>, i: int64, wire: nat, length: int64)
    requires |s| <= MAX_INT64 && 0 < i < |s| && length > 0 && i + length <= |s|
    requires ReadVarint(s[i..]).Got? && ReadVarint(s[i..]).value == wire && wire % 8 != 4
    requires Skip(s[i..]) == Skipped(length)
    ensures SkipGroup(s, i) == SkipGroup(s, i + length)
  {
  }

  // --------------------------------------------------------------------- soundness

  /** A varint that was read, as a slice. */
  lemma ReadSlice(s: seq<byte>, i: nat)
    requires i <= |s| && ReadVarint(s[i..]).Got?
    ensures var Got(v, n) := ReadVarint(s[i..]);
            i + n <= |s| && IsVarint(s[i..i + n], MAX_VARINT) && Groups(s[i..i + n]) == v
  {
    ReadVarintSound(s[i..], 0);
    TakeDrop(s, i, ReadVarint(s[i..]).n);
  }

  /** Reads back the record that Skip stepped over. */
  lemma {:induction false} SkipSound(s: seq<byte>) returns (f: Field)
    requires |s| <= MAX_INT64
    requires Skip(s).Skipped? && 0 <= Skip(s).n <= |s|
    ensures Valid(f) && Encode(f) == s[..Skip(s).n]
    ensures f.EndMarker? <==> ReadVarint(s).value % 8 == 4
    decreases |s|, |s| + 1
  {
    hide SkipGroup, ReadVarintFrom, IsVarint, Groups;
    var Got(wire, i) := ReadVarint(s);
    var n := Skip(s).n;
    ReadVarintSound(s, 0);
    var tag := s[..i];
    if wire % 8 == 3 {
      var body, end := SkipGroupSound(s, i);
      f := GroupField(tag, body, end);
    } else {
      f := SkipFlatSound(s, tag);
    }
    TagThenPayload(f);
    JoinSlices(s, 0, i, n);
  }

  /** The records without nested records. */
  lemma SkipFlatSound(s: seq<byte>, tag: seq<byte>) returns (f: Field)
    requires |s| <= MAX_INT64
    requires Skip(s).Skipped? && 0 <= Skip(s).n <= |s|
    requires tag == s[..ReadVarint(s).n] && IsTag(tag, ReadVarint(s).value % 8)
    requires ReadVarint(s).value % 8 != 3
    ensures ReadVarint(s).n <= Skip(s).n
    ensures Valid(f) && f.tag == tag && Payload(f) == s[ReadVarint(s).n..Skip(s).n]
    ensures f.EndMarker? <==> ReadVarint(s).value % 8 == 4
  {
    hide SkipGroup, ReadVarintFrom, IsVarint, Groups;
    var Got(wire, i) := ReadVarint(s);
    var n := Skip(s).n;
    match wire % 8 {
      case 0 =>
        ReadSlice(s, i);
        f := VarintField(tag, s[i..n]);
      case 1 =>
        f := Fixed64Field(tag, s[i..n]);
      case 2 =>
        var k := i + ReadVarint(s[i..]).n;
        ReadSlice(s, i);
        f := LengthField(tag, s[i..k], s[k..n]);
        JoinSlices(s, i, k, n);
      case 4 =>
        f := EndMarker(tag);
      case _ =>
        f := Fixed32Field(tag, s[i..n]);
    }
  }

  /** A group that is accepted never overran the input on the way. */
  lemma SkipGroupUnfolds(s: seq<byte>, i: int64)
    requires |s| <= MAX_INT64 && 0 < i
    requires SkipGroup(s, i).Skipped?
    ensures i < |s| && ReadVarint(s[i..]).Got?
    ensures ReadVarint(s[i..]).value % 8 == 4 ==>
              SkipGroup(s, i) == Skipped(i + ReadVarint(s[i..]).n)
    ensures ReadVarint(s[i..]).value % 8 != 4 ==>
              && Skip(s[i..]).Skipped?
              && 0 < Skip(s[i..]).n <= |s| - i
              && SkipGroup(s, i) == SkipGroup(s, i + Skip(s[i..]).n)
  {
    hide Skip, ReadVarintFrom;
  }

  lemma {:induction false} SkipGroupSound(s: seq<byte>, i: int64) returns (body: Fields, end: seq<byte>)
    requires |s| <= MAX_INT64 && 0 < i
    requires SkipGroup(s, i).Skipped?
    ensures ValidBody(body) && IsTag(end, 4)
    ensures EncodeBody(body) + end == s[i..SkipGroup(s, i).n]
    decreases |s|, if i <= |s| then |s| - i else 0
  {
    hide Skip, SkipGroup, ReadVarint, IsVarint, Groups, Valid, Encode;
    SkipGroupUnfolds(s, i);
    var n := SkipGroup(s, i).n;
    if ReadVarint(s[i..]).value % 8 == 4 {
      ReadSlice(s, i);
      body, end := Nil, s[i..n];
      assert EncodeBody(Nil) + end == end;
    } else {
      var next := i + Skip(s[i..]).n;
      var head := SkipSound(s[i..]);
      TakeDrop(s, i, next - i);
      var tail;
      tail, end := SkipGroupSound(s, next);
      body := Cons(head, tail);
      JoinSlices(s, i, next, n);
      Assoc(Encode(head), EncodeBody(tail), end);
    }
  }

  /** The skipper accepts the first n bytes exactly when they are one record. */
  lemma SkipExact(s: seq<byte>, n: nat)
    requires |s| <= MAX_INT64 && n <= |s|
    ensures Skip(s) == Skipped(n) <==> exists f :: Valid(f) && Encode(f) == s[..n]
  {
    hide Skip, Valid, Encode;
    if Skip(s) == Skipped(n) {
      var f := SkipSound(s);
      assert Valid(f) && Encode(f) == s[..n];
    }
    forall f | Valid(f) && Encode(f) == s[..n]
      ensures Skip(s) == Skipped(n)
    {
      SkipComplete(f, s[n..]);
      assert s == s[..n] + s[n..];
    }
  }

  /** What follows an accepted record has no influence on how it is skipped. */
  lemma SkipIgnoresRest(s: seq<byte>, rest: seq<byte>)
    requires |s + rest| <= MAX_INT64
    requires Skip(s).Skipped? && 0 <= Skip(s).n <= |s|
    ensures Skip(s + rest) == Skip(s)
  {
    hide Skip, Valid, Encode;
    var n := Skip(s).n;
    SkipExact(s, n);
    SkipExact(s + rest, n);
    assert (s + rest)[..n] == s[..n];
  }
}
