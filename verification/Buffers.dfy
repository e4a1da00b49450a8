/**
 The loops of the generated code that move through a byte buffer: reading a varint,
 skipping a record, and writing from the back of a buffer towards its front.  The
 source repeats the reading loop inline at every field; here it is one method.
 */
module Buffers {
  import opened Sequences
  import opened Wire
  import opened Skipping
  import opened Schema

  // ----------------------------------------------------------------------- reading

  /** What a reading loop will return, given that `done` bytes have been read whose groups
      spell `prefix`, and what it would return for the remaining bytes. */
  function Resume(prefix: nat, done: nat, r: VarintRead): VarintRead {
    match r
    case Got(v, n) => Got(prefix + v * Pow2(7 * done), n + done)
    case Failed(e, p) => Failed(e, prefix + p * Pow2(7 * done))
  }

  /** One round of the loop, on the specification. */
  lemma ResumeNext(prefix: nat, done: nat, s: seq<byte>)
    requires done < MAX_VARINT && s != [] && s[0] >= 128
    ensures Resume(prefix, done, ReadVarintFrom(s, done))
         == Resume(prefix + s[0] % 128 * Pow2(7 * done), done + 1, ReadVarintFrom(s[1..], done + 1))
  {
    hide Pow2;
    var rest := ReadVarintFrom(s[1..], done + 1);
    NextPower(done);
    RegroupValue(prefix, s[0] % 128, if rest.Got? then rest.value else rest.partial, Pow2(7 * done));
  }

  lemma NextPower(done: nat)
    ensures Pow2(7 * (done + 1)) == 128 * Pow2(7 * done)
  {
    Pow2Adds(7, 7 * done);
    Pow2Of16();
  }

  lemma RegroupValue(prefix: nat, group: nat, v: nat, p: nat)
    ensures prefix + (group + 128 * v) * p == (prefix + group * p) + v * (128 * p)
  {
  }

  lemma PrefixBound(prefix: nat, group: nat, p: nat)
    requires prefix < p && group < 128
    ensures prefix + group * p < 128 * p
  {
    assert group * p <= 127 * p;
  }

  /** Reads a varint at `start` into a word of 32 or 64 bits, group by group. */
  method DecodeVarint(dAtA: seq<byte>, start: nat, bits: nat) returns (value: nat, iNdEx: nat, err: Option<Error>)
    requires start <= |dAtA|
    requires bits == 32 || bits == 64
    ensures start <= iNdEx <= |dAtA|
    ensures match ReadVarint(dAtA[start..])
            case Got(v, n) => err == None && value == Truncate(v, bits) && iNdEx == start + n
            case Failed(e, p) => err == Some(e) && value == Truncate(p, bits)
  {
    hide ReadVarintFrom, Pow2, BitOr, Shl;
    value, iNdEx := 0, start;
    var shift := 0;
    ghost var prefix: nat, done: nat := 0, 0;
    assert Pow2(0) == 1 by { PowerOfZero(); }
    ResumeStart(dAtA[start..]);
    while true
      invariant start <= iNdEx <= |dAtA|
      invariant done <= MAX_VARINT && shift == 7 * done && iNdEx == start + done
      invariant prefix < Pow2(shift) && value == Truncate(prefix, bits)
      invariant ReadVarint(dAtA[start..]) == Resume(prefix, done, ReadVarintFrom(dAtA[iNdEx..], done))
      decreases MAX_VARINT - done
    {
      hide Resume, Truncate;
      ReadVarintUnfolds(dAtA[iNdEx..], done);
      ResumeEnds(prefix, done, IntOverflow);
      ResumeEnds(prefix, done, UnexpectedEOF);
      if shift >= 64 {
        return value, iNdEx, Some(IntOverflow);
      }
      if iNdEx >= |dAtA| {
        return value, iNdEx, Some(UnexpectedEOF);
      }
      var b := dAtA[iNdEx];
      AccumulateGroup(prefix, b % 128, shift, bits);
      PrefixBound(prefix, b % 128, Pow2(shift));
      NextPower(done);
      ResumeLast(prefix, done, b);
      value := BitOr(value, Shl(b % 128, shift, bits));
      iNdEx := iNdEx + 1;
      if b < 0x80 {
        return value, iNdEx, None;
      }
      ResumeNext(prefix, done, dAtA[iNdEx - 1..]);
      DropDrop(dAtA, iNdEx - 1, 1);
      prefix, done := prefix + b % 128 * Pow2(shift), done + 1;
      shift := shift + 7;
    }
  }

  lemma ResumeEnds(prefix: nat, done: nat, e: Error)
    ensures Resume(prefix, done, Failed(e, 0)) == Failed(e, prefix)
  {
  }

  lemma ResumeLast(prefix: nat, done: nat, b: byte)
    ensures b < 128 ==> Resume(prefix, done, Got(b, 1)) == Got(prefix + b % 128 * Pow2(7 * done), done + 1)
  {
  }

  lemma PowerOfZero()
    ensures Pow2(0) == 1
  {
  }

  lemma ResumeStart(s: seq<byte>)
    ensures ReadVarint(s) == Resume(0, 0, ReadVarintFrom(s, 0))
  {
    PowerOfZero();
  }

  /** The three ways a round of the loop can end it. */
  lemma ReadVarintUnfolds(s: seq<byte>, done: nat)
    requires done <= MAX_VARINT
    ensures done == MAX_VARINT ==> ReadVarintFrom(s, done) == Failed(IntOverflow, 0)
    ensures done < MAX_VARINT && s == [] ==> ReadVarintFrom(s, done) == Failed(UnexpectedEOF, 0)
    ensures done < MAX_VARINT && s != [] && s[0] < 128 ==> ReadVarintFrom(s, done) == Got(s[0], 1)
  {
  }

  /** skipCaService and skipIstioca: the length of the record at the start of dAtA. */
  method SkipRecord(dAtA: seq<byte>) returns (r: SkipResult)
    requires |dAtA| <= MAX_INT64
    ensures r == Skip(dAtA)
    decreases |dAtA|
  {
    hide ReadVarintFrom, SkipGroup;
    if dAtA == [] {
      return Unreachable;
    }
    var wire, iNdEx, err := DecodeVarint(dAtA, 0, 64);
    assert dAtA[0..] == dAtA;
    if err.Some? {
      return SkipFailed(err.value);
    }
    match wire % 8 {
      case 0 =>
        var _, end, e := DecodeVarint(dAtA, iNdEx, 64);
        r := if e.Some? then SkipFailed(e.value) else Skipped(end);
      case 1 =>
        r := Skipped(Add64(iNdEx, 8));
      case 2 =>
        var v, next, e := DecodeVarint(dAtA, iNdEx, 64);
        if e.Some? {
          return SkipFailed(e.value);
        }
        var length := ToInt64(v);
        if length < 0 {
          return SkipFailed(InvalidLength);
        }
        var end := Add64(next, length);
        r := if end < 0 then SkipFailed(InvalidLength) else Skipped(end);
      case 3 =>
        r := SkipGroupRecords(dAtA, iNdEx);
      case 4 =>
        r := Skipped(iNdEx);
      case 5 =>
        r := Skipped(Add64(iNdEx, 4));
      case _ =>
        r := SkipFailed(IllegalWireType(wire % 8));
    }
  }

  /** The inner loop of the skipper: the records of a group up to its end marker. */
  method SkipGroupRecords(dAtA: seq<byte>, first: int64) returns (r: SkipResult)
    requires |dAtA| <= MAX_INT64 && 0 < first <= |dAtA|
    ensures r == SkipGroup(dAtA, first)
    decreases |dAtA|, 0
  {
    hide Skip, ReadVarintFrom;
    var iNdEx: int64 := first;
    while true
      invariant 0 < iNdEx
      invariant SkipGroup(dAtA, first) == SkipGroup(dAtA, iNdEx)
      decreases if iNdEx <= |dAtA| then |dAtA| - iNdEx else -1
    {
      var start := iNdEx;
      if start > |dAtA| { // an inner record claimed more than there is; the next read would fail
        return SkipFailed(UnexpectedEOF);
      }
      var innerWire, after, err := DecodeVarint(dAtA, start, 64);
      if start == |dAtA| {
        assert dAtA[start..] == [];
        EmptyVarint();
      }
      if err.Some? {
        return SkipFailed(err.value);
      }
      if innerWire % 8 == 4 {
        return Skipped(after);
      }
      var next := SkipRecord(dAtA[start..]);
      if !next.Skipped? {
        return next;
      }
      iNdEx := Add64(start, next.n);
      if iNdEx < 0 {
        return SkipFailed(InvalidLength);
      }
    }
  }

  lemma EmptyVarint()
    ensures ReadVarint([]) == Failed(UnexpectedEOF, 0)
  {
  }

  /** A length-delimited decoding case: the wire type check, then the payload's bounds. */
  method DecodeDelimited(dAtA: seq<byte>, start: nat, fieldNum: int32, wireType: nat, ghost preIndex: nat)
    returns (iNdEx: nat, postIndex: nat, err: Option<Error>)
    requires preIndex <= start <= |dAtA| <= MAX_INT64
    ensures wireType != 2 ==> err == Some(WrongWireType(wireType, fieldNum))
    ensures wireType == 2 ==>
              match ReadDelimited(dAtA[preIndex..], start - preIndex, preIndex)
              case Refused(e) => err == Some(e)
              case Delimited(data, n) =>
                && err == None && start < iNdEx <= postIndex == preIndex + n <= |dAtA|
                && data == dAtA[iNdEx..postIndex]
  {
    hide ReadVarint;
    if wireType != 2 {
      return start, start, Some(WrongWireType(wireType, fieldNum));
    }
    var length;
    length, iNdEx, err := DecodeVarint(dAtA, start, 64);
    postIndex := iNdEx;
    DropDrop(dAtA, preIndex, start - preIndex);
    if err.None? {
      var byteLen := ToInt64(length);
      if byteLen < 0 {
        return iNdEx, iNdEx, Some(InvalidLength);
      }
      var post := Add64(iNdEx, byteLen);
      if post < 0 {
        return iNdEx, iNdEx, Some(InvalidLength);
      }
      if post > |dAtA| {
        return iNdEx, iNdEx, Some(UnexpectedEOF);
      }
      postIndex := post;
    }
  }

  /** A varint decoding case: the wire type check, then the value as a word of `bits` bits. */
  method DecodeScalar(dAtA: seq<byte>, start: nat, fieldNum: int32, wireType: nat, bits: nat, ghost preIndex: nat)
    returns (value: nat, iNdEx: nat, err: Option<Error>)
    requires preIndex <= start <= |dAtA|
    requires bits == 32 || bits == 64
    ensures wireType != 0 ==> err == Some(WrongWireType(wireType, fieldNum))
    ensures wireType == 0 ==>
              match ReadVarint(dAtA[preIndex..][start - preIndex..])
              case Got(v, n) => err == None && value == Truncate(v, bits) && iNdEx == start + n <= |dAtA|
              case Failed(e, p) => err == Some(e) && value == Truncate(p, bits)
  {
    hide ReadVarint;
    if wireType != 0 {
      return 0, start, Some(WrongWireType(wireType, fieldNum));
    }
    DropDrop(dAtA, preIndex, start - preIndex);
    value, iNdEx, err := DecodeVarint(dAtA, start, bits);
  }

  /** The tag of the record at preIndex, with the checks that precede the field switch. */
  method DecodeTag(dAtA: seq<byte>, preIndex: nat) returns (fieldNum: int32, wireType: nat, iNdEx: nat, err: Option<Error>)
    requires preIndex < |dAtA| <= MAX_INT64
    ensures preIndex <= iNdEx <= |dAtA|
    ensures match ReadVarint(dAtA[preIndex..])
            case Failed(e, _) => err == Some(e)
            case Got(wire, n) =>
              && iNdEx == preIndex + n && fieldNum == FieldNumber(wire) && wireType == wire % 8
              && err == if wireType == 4 then Some(EndGroup)
                        else if fieldNum <= 0 then Some(IllegalTag(fieldNum, wire % TWO_TO_64))
                        else None
  {
    hide ReadVarint;
    var wire;
    wire, iNdEx, err := DecodeVarint(dAtA, preIndex, 64);
    fieldNum, wireType := ToInt32(wire / 8 % TWO_TO_32), wire % 8;
    if err.None? {
      if wireType == 4 {
        err := Some(EndGroup);
      } else if fieldNum <= 0 {
        err := Some(IllegalTag(fieldNum, wire));
      }
    }
  }

  /** The default case of every decoding switch: pass over the record at preIndex. */
  method SkipUnknown(dAtA: seq<byte>, preIndex: nat) returns (iNdEx: nat, err: Option<Error>)
    requires preIndex < |dAtA| <= MAX_INT64
    ensures err.None? ==> preIndex < iNdEx <= |dAtA|
    ensures match ReadUnknown(dAtA[preIndex..], preIndex)
            case Blocked(e) => err == Some(e)
            case Passed(n) => err == None && iNdEx == preIndex + n
  {
    hide Skip;
    iNdEx := preIndex;
    var skippy := SkipRecord(dAtA[iNdEx..]);
    match skippy {
      case SkipFailed(e) =>
        return iNdEx, Some(e);
      case Skipped(n) =>
        if n < 0 || Add64(iNdEx, n) < 0 {
          return iNdEx, Some(InvalidLength);
        }
        if Add64(iNdEx, n) > |dAtA| {
          return iNdEx, Some(UnexpectedEOF);
        }
        return iNdEx + n, None;
    }
  }

  // ----------------------------------------------------------------------- writing

  /** From old content s, the bytes [i..i+|data|) have become data and nothing else changed. */
  ghost predicate Written(now: seq<byte>, before: seq<byte>, i: nat, data: seq<byte>) {
    && |now| == |before| && i + |data| <= |before|
    && now[..i] == before[..i]
    && now[i..i + |data|] == data
    && now[i + |data|..] == before[i + |data|..]
  }

  /** encodeVarintCaService and encodeVarintIstioca: v ends at `offset`; returns where it starts. */
  method EncodeVarintBack(dAtA: array<byte>, offset: nat, v: uint64) returns (base: nat)
    requires |EncodeVarint(v)| <= offset <= dAtA.Length
    modifies dAtA
    ensures base + |EncodeVarint(v)| == offset
    ensures Written(dAtA[..], old(dAtA[..]), base, EncodeVarint(v))
  {
    SovIsEncodedLength(v);
    base := offset - Sov(v);
    ghost var before := dAtA[..];
    var i, rest := base, v;
    while rest >= 0x80
      invariant base <= i && i + |EncodeVarint(rest)| == offset
      invariant dAtA[..base] == before[..base] && dAtA[offset..] == before[offset..]
      invariant dAtA[base..i] + EncodeVarint(rest) == EncodeVarint(v)
      decreases rest
    {
      hide BitOr, EncodeVarint;
      ContinuationByte(rest);
      EncodeVarintUnfolds(rest);
      ghost var sofar := dAtA[base..i];
      dAtA[i] := BitOr(rest % 128, 0x80);
      assert dAtA[base..i + 1] == sofar + [rest % 128 + 128];
      Assoc(sofar, [rest % 128 + 128], EncodeVarint(rest / 128));
      rest := rest / 128;
      i := i + 1;
    }
    dAtA[i] := rest;
    assert dAtA[base..offset] == dAtA[base..i] + [rest];
  }

  lemma EncodeVarintUnfolds(v: nat)
    requires v >= 128
    ensures EncodeVarint(v) == [v % 128 + 128] + EncodeVarint(v / 128)
  {
  }

  lemma ContinuationByte(v: nat)
    ensures BitOr(v % 128, 0x80) == v % 128 + 128
  {
    Pow2Of16();
    BitOrDisjoint(v % 128, 1, 7);
  }

  /** `copy(dAtA[i:], data)`. */
  method CopyAt(dAtA: array<byte>, i: nat, data: seq<byte>)
    requires i + |data| <= dAtA.Length
    modifies dAtA
    ensures Written(dAtA[..], old(dAtA[..]), i, data)
  {
    for k := 0 to |data|
      invariant dAtA[..i] == old(dAtA[..i])
      invariant dAtA[i..i + k] == data[..k]
      invariant dAtA[i + k..] == old(dAtA[i + k..])
    {
      dAtA[i + k] := data[k];
      assert dAtA[i..i + k + 1] == dAtA[i..i + k] + [data[k]];
    }
  }

  /** Writing in front of what has been written joins the two. */
  lemma WrittenBefore(now: seq<byte>, mid: seq<byte>, before: seq<byte>, i: nat, x: seq<byte>, y: seq<byte>)
    requires Written(mid, before, i + |x|, y) && Written(now, mid, i, x)
    ensures Written(now, before, i, x + y)
  {
    assert now[i + |x|..][..|y|] == mid[i + |x|..][..|y|];
    assert now[i + |x|..][|y|..] == mid[i + |x|..][|y|..];
    assert mid[..i + |x|][..i] == before[..i + |x|][..i];
  }

  lemma NothingWrittenAt(s: seq<byte>, i: nat)
    requires i <= |s|
    ensures Written(s, s, i, [])
  {
  }

  /** The message so far, from field k + 2 on, with field k + 1 put in front. */
  lemma FieldWritten<S>(c: Codec<S>, m: seq<Value<S>>, k: nat, now: seq<byte>, mid: seq<byte>, before: seq<byte>, i: nat)
    requires k < |m|
    requires Written(mid, before, i + |EncodeValue(c, k + 1, m[k])|, EncodeFrom(c, m, k + 1))
    requires Written(now, mid, i, EncodeValue(c, k + 1, m[k]))
    ensures Written(now, before, i, EncodeFrom(c, m, k))
  {
    hide Written, EncodeValue;
    WrittenBefore(now, mid, before, i, EncodeValue(c, k + 1, m[k]), EncodeFrom(c, m, k + 1));
  }

  /** `i--; dAtA[i] = tag`. */
  method WriteTag(dAtA: array<byte>, offset: nat, tag: byte) returns (i: nat)
    requires tag < 128 && 0 < offset <= dAtA.Length
    modifies dAtA
    ensures i + |EncodeVarint(tag)| == offset
    ensures Written(dAtA[..], old(dAtA[..]), i, EncodeVarint(tag))
  {
    i := offset - 1;
    dAtA[i] := tag;
  }

  /** A length-delimited field, written backwards: payload, length, tag. */
  method WriteDelimited(dAtA: array<byte>, offset: nat, num: nat, data: seq<byte>) returns (i: nat)
    requires num < 16 && |data| < TWO_TO_64
    requires |Delimit(num, data)| <= offset <= dAtA.Length
    modifies dAtA
    ensures i + |Delimit(num, data)| == offset
    ensures Written(dAtA[..], old(dAtA[..]), i, Delimit(num, data))
  {
    hide Written, EncodeVarint;
    ghost var s0 := dAtA[..];
    i := offset - |data|;
    CopyAt(dAtA, i, data);
    ghost var s1 := dAtA[..];
    i := EncodeVarintBack(dAtA, i, |data|);
    ghost var s2 := dAtA[..];
    WrittenBefore(s2, s1, s0, i, EncodeVarint(|data|), data);
    i := WriteTag(dAtA, i, num * 8 + 2);
    WrittenBefore(dAtA[..], s2, s0, i, EncodeVarint(num * 8 + 2), EncodeVarint(|data|) + data);
    Assoc(EncodeVarint(num * 8 + 2), EncodeVarint(|data|), data);
  }

  /** A varint field, written backwards: value, tag. */
  method WriteVarintField(dAtA: array<byte>, offset: nat, num: nat, v: uint64) returns (i: nat)
    requires num < 16
    requires |EncodeVarint(num * 8) + EncodeVarint(v)| <= offset <= dAtA.Length
    modifies dAtA
    ensures i + |EncodeVarint(num * 8) + EncodeVarint(v)| == offset
    ensures Written(dAtA[..], old(dAtA[..]), i, EncodeVarint(num * 8) + EncodeVarint(v))
  {
    hide Written, EncodeVarint;
    ghost var s0 := dAtA[..];
    i := EncodeVarintBack(dAtA, offset, v);
    ghost var s1 := dAtA[..];
    i := WriteTag(dAtA, i, num * 8);
    WrittenBefore(dAtA[..], s1, s0, i, EncodeVarint(num * 8), EncodeVarint(v));
  }

  /** `if len(data) > 0 { ... }` around a length-delimited field. */
  method WriteNonEmpty(dAtA: array<byte>, offset: nat, num: nat, data: seq<byte>) returns (i: nat)
    requires num < 16 && |data| < TWO_TO_64
    requires |DelimitNonEmpty(num, data)| <= offset <= dAtA.Length
    modifies dAtA
    ensures i + |DelimitNonEmpty(num, data)| == offset
    ensures Written(dAtA[..], old(dAtA[..]), i, DelimitNonEmpty(num, data))
  {
    hide Written, Delimit;
    i := offset;
    if |data| > 0 {
      i := WriteDelimited(dAtA, i, num, data);
    } else {
      NothingWrittenAt(dAtA[..], i);
    }
  }

  /** `if v != 0 { ... }` around a varint field. */
  method WriteNonZero(dAtA: array<byte>, offset: nat, num: nat, v: uint64) returns (i: nat)
    requires num < 16
    requires |VarintNonZero(num, v)| <= offset <= dAtA.Length
    modifies dAtA
    ensures i + |VarintNonZero(num, v)| == offset
    ensures Written(dAtA[..], old(dAtA[..]), i, VarintNonZero(num, v))
  {
    hide Written, EncodeVarint;
    i := offset;
    if v != 0 {
      i := WriteVarintField(dAtA, i, num, v);
    } else {
      NothingWrittenAt(dAtA[..], i);
    }
  }
}
