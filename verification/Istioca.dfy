/** The messages of security/proto/istioca.pb.go. */
module Istioca {
  import opened Sequences
  import opened Wire
  import opened Schema
  import opened Buffers
  import opened Encoding

  const CERTIFICATE_REQUEST: seq<Kind> := [StringKind, StringKind, Int64Kind]

  const CERTIFICATE_RESPONSE: seq<Kind> := [RepeatedKind]

  /** An argument of type interface{}: nil, a pointer that may be nil, a struct by its
      address after being copied, or a value of some other type. */
  datatype Argument<P> = NoValue | Pointer(p: P) | Struct(address: P) | OtherType

  /** The pointer that an argument stands for, if it is of the right type. */
  function Target<P>(that: Argument<P>): Option<P> {
    match that
    case Pointer(p) => Some(p)
    case Struct(p) => Some(p)
    case _ => None
  }

  class IstioCertificateRequest {
    var csr: seq<byte>
    var subjectId: seq<byte>
    var validityDuration: int64

    constructor ()
      ensures View() == Zero(CERTIFICATE_REQUEST)
    {
      csr, subjectId, validityDuration := [], [], 0;
    }

    function View(): (m: seq<Value<()>>)
      reads this
      ensures HasSchema(m, CERTIFICATE_REQUEST)
    {
      [StringValue(csr), StringValue(subjectId), Int64Value(validityDuration)]
    }

    /** The bytes this message stands for. */
    function Encoded(): seq<byte>
      reads this
    {
      EncodeMessage(NO_NESTED, View())
    }

    /** The bytes on the wire, field by field: each with its tag byte, in the order of the tags. */
    lemma EncodedExactly()
      ensures Encoded()
           == DelimitedBytes(0x0A, csr) +
              (DelimitedBytes(0x12, subjectId) +
              ScalarBytes(0x18, validityDuration))
    {
      hide HasSchema, HasKind, EncodeValue, EncodeFrom, DelimitedBytes, ScalarBytes, ItemBytes, EncodeVarint;
      var m := View();
      ValueBytes(NO_NESTED, 1, m[0]);
      LastField(NO_NESTED, m, 0);
      ValueBytes(NO_NESTED, 2, m[1]);
      LastField(NO_NESTED, m, 1);
      ValueBytes(NO_NESTED, 3, m[2]);
      LastField(NO_NESTED, m, 2);
    }

    /** Equal of a receiver that may be nil. */
    static method Equal(x: IstioCertificateRequest?, that: Argument<IstioCertificateRequest?>) returns (equal: bool)
      requires that.Struct? ==> that.address != null
      ensures equal <==> match that
                         case NoValue => x == null
                         case OtherType => false
                         case _ => var y := Target(that).value;
                                   (x == null && y == null) || (x != null && y != null && x.View() == y.View())
    {
      if that.NoValue? {
        return x == null;
      }
      var that1;
      match that {
        case Pointer(p) => that1 := p;
        case Struct(address) => that1 := address;
        case _ => return false;
      }
      if that1 == null {
        return x == null;
      } else if x == null {
        return false;
      }
      assert x.View() == that1.View() <==>
        x.View()[0] == that1.View()[0] && x.View()[1] == that1.View()[1] && x.View()[2] == that1.View()[2];
      if x.csr != that1.csr {
        return false;
      }
      if x.subjectId != that1.subjectId {
        return false;
      }
      if x.validityDuration != that1.validityDuration {
        return false;
      }
      return true;
    }

    /** The body of the decoding loop. */
    method UnmarshalRecord(dAtA: seq<byte>, preIndex: nat) returns (iNdEx: nat, err: Option<Error>)
      requires preIndex < |dAtA| <= MAX_INT64
      modifies this
      ensures err.None? ==> preIndex < iNdEx <= |dAtA|
      ensures Step(NO_NESTED, CERTIFICATE_REQUEST, old(View()), dAtA[preIndex..], preIndex)
           == if err.None? then Next(View(), iNdEx - preIndex) else Stop(View(), err.value)
    {
      hide HasSchema, HasKind, ToInt32, ToInt64, Step, StepKnown, FieldNumber, ReadVarint, ReadDelimited, ReadUnknown;
      ghost var s, m := dAtA[preIndex..], View();
      var fieldNum, wireType;
      fieldNum, wireType, iNdEx, err := DecodeTag(dAtA, preIndex);
      if err.Some? {
        StepBadTag(NO_NESTED, CERTIFICATE_REQUEST, m, s, preIndex);
        return;
      }
      StepByTag(NO_NESTED, CERTIFICATE_REQUEST, m, s, preIndex);
      match fieldNum {
        case 1 =>
          StepDelimited(NO_NESTED, CERTIFICATE_REQUEST, m, 0, s, iNdEx - preIndex, preIndex);
          var start, postIndex;
          start, postIndex, err := DecodeDelimited(dAtA, iNdEx, fieldNum, wireType, preIndex);
          if err.Some? {
            return;
          }
          csr := dAtA[start..postIndex];
          assert View() == m[0 := View()[0]];
          iNdEx := postIndex;
        case 2 =>
          StepDelimited(NO_NESTED, CERTIFICATE_REQUEST, m, 1, s, iNdEx - preIndex, preIndex);
          var start, postIndex;
          start, postIndex, err := DecodeDelimited(dAtA, iNdEx, fieldNum, wireType, preIndex);
          if err.Some? {
            return;
          }
          subjectId := dAtA[start..postIndex];
          assert View() == m[1 := View()[1]];
          iNdEx := postIndex;
        case 3 =>
          StepInt64(NO_NESTED, CERTIFICATE_REQUEST, m, 2, s, iNdEx - preIndex, preIndex);
          var word;
          word, iNdEx, err := DecodeScalar(dAtA, iNdEx, fieldNum, wireType, 64, preIndex);
          if wireType == 0 {
            validityDuration := ToInt64(word);
            assert View() == m[2 := Int64Value(validityDuration)];
          }
        case _ =>
          iNdEx, err := SkipUnknown(dAtA, preIndex);
      }
    }

    method Unmarshal(dAtA: seq<byte>) returns (err: Option<Error>)
      requires |dAtA| <= MAX_INT64
      modifies this
      ensures Decode(NO_NESTED, CERTIFICATE_REQUEST, old(View()), dAtA, 0)
           == if err.None? then Decoded(View()) else Stopped(View(), err.value)
    {
      hide Step;
      var iNdEx := 0;
      while iNdEx < |dAtA|
        invariant iNdEx <= |dAtA|
        invariant Decode(NO_NESTED, CERTIFICATE_REQUEST, old(View()), dAtA, 0)
               == Decode(NO_NESTED, CERTIFICATE_REQUEST, View(), dAtA[iNdEx..], iNdEx)
      {
        var preIndex := iNdEx;
        iNdEx, err := UnmarshalRecord(dAtA, preIndex);
        if err.Some? {
          return;
        }
        DropDrop(dAtA, preIndex, iNdEx - preIndex);
      }
      // Everything has been consumed: the bounds check behind the source's loop cannot fire.
      assert iNdEx == |dAtA|;
      err := None;
    }

    method Size() returns (n: nat)
      requires |Encoded()| <= MAX_INT64
      ensures n == |Encoded()|
    {
      hide Delimit, EncodeFrom, EncodeVarint, Sov;
      EncodedSize(NO_NESTED, View(), 2);
      EncodedSize(NO_NESTED, View(), 1);
      EncodedSize(NO_NESTED, View(), 0);
      n := 0;
      if |csr| > 0 {
        var l := |csr|;
        DelimitSize(1, csr);
        n := n + 1 + l + Sov(l);
      }
      if |subjectId| > 0 {
        var l := |subjectId|;
        DelimitSize(2, subjectId);
        n := n + 1 + l + Sov(l);
      }
      if validityDuration != 0 {
        VarintFieldSize(3, ToUint64(validityDuration));
        n := n + 1 + Sov(ToUint64(validityDuration));
      }
    }

    /** Writes the message backwards so that it ends at `length`; returns its size. */
    method MarshalToSizedBuffer(dAtA: array<byte>, length: nat) returns (n: nat)
      requires |Encoded()| <= MAX_INT64
      requires |Encoded()| <= length <= dAtA.Length
      modifies dAtA
      ensures n == |Encoded()|
      ensures Written(dAtA[..], old(dAtA[..]), length - n, Encoded())
    {
      hide Written, EncodeFrom, Delimit, DelimitNonEmpty, VarintNonZero, ToUint64, Content;
      ghost var m, before := View(), dAtA[..];
      EncodedSize(NO_NESTED, m, 2);
      EncodedSize(NO_NESTED, m, 1);
      EncodedSize(NO_NESTED, m, 0);
      var i := length;
      NothingWrittenAt(before, i);
      ghost var s2 := dAtA[..];
      i := WriteNonZero(dAtA, i, 3, ToUint64(validityDuration));
      FieldWritten(NO_NESTED, m, 2, dAtA[..], s2, before, i);
      ghost var s1 := dAtA[..];
      i := WriteNonEmpty(dAtA, i, 2, subjectId);
      FieldWritten(NO_NESTED, m, 1, dAtA[..], s1, before, i);
      ghost var s0 := dAtA[..];
      i := WriteNonEmpty(dAtA, i, 1, csr);
      FieldWritten(NO_NESTED, m, 0, dAtA[..], s0, before, i);
      n := length - i;
    }

    method Marshal() returns (data: seq<byte>)
      requires |Encoded()| <= MAX_INT64
      ensures data == Encoded()
    {
      var size := Size();
      var dAtA := new byte[size];
      var n := MarshalToSizedBuffer(dAtA, size);
      data := dAtA[..n];
    }

    /** Fills the front of a caller's buffer and leaves the rest of it alone. */
    method MarshalTo(dAtA: array<byte>) returns (n: nat)
      requires |Encoded()| <= MAX_INT64
      requires |Encoded()| <= dAtA.Length
      modifies dAtA
      ensures n == |Encoded()|
      ensures dAtA[..] == Encoded() + old(dAtA[n..])
    {
      var size := Size();
      n := MarshalToSizedBuffer(dAtA, size);
    }

    /** Marshalling this message and unmarshalling the bytes into a fresh one. */
    method Copy() returns (y: IstioCertificateRequest, equal: bool)
      requires |Encoded()| <= MAX_INT64
      ensures fresh(y)
      ensures equal && y.View() == View()
    {
      hide Decode, EncodeFrom, Lawful;
      NoNestedIsLawful();
      RoundTrip(NO_NESTED, CERTIFICATE_REQUEST, View());
      var data := Marshal();
      y := new IstioCertificateRequest();
      var err := y.Unmarshal(data);
      assert y.View()[0] == NormalValue(View()[0]);
      assert y.View()[1] == NormalValue(View()[1]);
      assert y.View()[2] == NormalValue(View()[2]);
      assert y.View() == View();
      equal := Equal(this, Pointer(y));
    }
  }

  class IstioCertificateResponse {
    var certChain: seq<seq<byte>>

    constructor ()
      ensures View() == Zero(CERTIFICATE_RESPONSE)
    {
      certChain := [];
    }

    function View(): (m: seq<Value<()>>)
      reads this
      ensures HasSchema(m, CERTIFICATE_RESPONSE)
    {
      [RepeatedValue(certChain)]
    }

    /** The bytes this message stands for. */
    function Encoded(): seq<byte>
      reads this
    {
      EncodeMessage(NO_NESTED, View())
    }

    /** The bytes on the wire, field by field: each with its tag byte, in the order of the tags. */
    lemma EncodedExactly()
      ensures Encoded()
           == ItemBytes(0x0A, certChain)
    {
      hide HasSchema, HasKind, EncodeValue, EncodeFrom, DelimitedBytes, ScalarBytes, ItemBytes, EncodeVarint;
      var m := View();
      ValueBytes(NO_NESTED, 1, m[0]);
      LastField(NO_NESTED, m, 0);
    }

    /** Equal of a receiver that may be nil. */
    static method Equal(x: IstioCertificateResponse?, that: Argument<IstioCertificateResponse?>) returns (equal: bool)
      requires that.Struct? ==> that.address != null
      ensures equal <==> match that
                         case NoValue => x == null
                         case OtherType => false
                         case _ => var y := Target(that).value;
                                   (x == null && y == null) || (x != null && y != null && x.View() == y.View())
    {
      if that.NoValue? {
        return x == null;
      }
      var that1;
      match that {
        case Pointer(p) => that1 := p;
        case Struct(address) => that1 := address;
        case _ => return false;
      }
      if that1 == null {
        return x == null;
      } else if x == null {
        return false;
      }
      assert x.View() == that1.View() <==> x.View()[0] == that1.View()[0];
      if |x.certChain| != |that1.certChain| {
        return false;
      }
      for i := 0 to |x.certChain|
        invariant x.certChain[..i] == that1.certChain[..i]
      {
        if x.certChain[i] != that1.certChain[i] {
          return false;
        }
      }
      return true;
    }

    /** The body of the decoding loop. */
    method UnmarshalRecord(dAtA: seq<byte>, preIndex: nat) returns (iNdEx: nat, err: Option<Error>)
      requires preIndex < |dAtA| <= MAX_INT64
      modifies this
      ensures err.None? ==> preIndex < iNdEx <= |dAtA|
      ensures Step(NO_NESTED, CERTIFICATE_RESPONSE, old(View()), dAtA[preIndex..], preIndex)
           == if err.None? then Next(View(), iNdEx - preIndex) else Stop(View(), err.value)
    {
      hide HasSchema, HasKind, ToInt32, ToInt64, Step, StepKnown, FieldNumber, ReadVarint, ReadDelimited, ReadUnknown;
      ghost var s, m := dAtA[preIndex..], View();
      var fieldNum, wireType;
      fieldNum, wireType, iNdEx, err := DecodeTag(dAtA, preIndex);
      if err.Some? {
        StepBadTag(NO_NESTED, CERTIFICATE_RESPONSE, m, s, preIndex);
        return;
      }
      StepByTag(NO_NESTED, CERTIFICATE_RESPONSE, m, s, preIndex);
      match fieldNum {
        case 1 =>
          StepDelimited(NO_NESTED, CERTIFICATE_RESPONSE, m, 0, s, iNdEx - preIndex, preIndex);
          var start, postIndex;
          start, postIndex, err := DecodeDelimited(dAtA, iNdEx, fieldNum, wireType, preIndex);
          if err.Some? {
            return;
          }
          certChain := certChain + [dAtA[start..postIndex]];
          assert View() == m[0 := View()[0]];
          iNdEx := postIndex;
        case _ =>
          iNdEx, err := SkipUnknown(dAtA, preIndex);
      }
    }

    method Unmarshal(dAtA: seq<byte>) returns (err: Option<Error>)
      requires |dAtA| <= MAX_INT64
      modifies this
      ensures Decode(NO_NESTED, CERTIFICATE_RESPONSE, old(View()), dAtA, 0)
           == if err.None? then Decoded(View()) else Stopped(View(), err.value)
    {
      hide Step;
      var iNdEx := 0;
      while iNdEx < |dAtA|
        invariant iNdEx <= |dAtA|
        invariant Decode(NO_NESTED, CERTIFICATE_RESPONSE, old(View()), dAtA, 0)
               == Decode(NO_NESTED, CERTIFICATE_RESPONSE, View(), dAtA[iNdEx..], iNdEx)
      {
        var preIndex := iNdEx;
        iNdEx, err := UnmarshalRecord(dAtA, preIndex);
        if err.Some? {
          return;
        }
        DropDrop(dAtA, preIndex, iNdEx - preIndex);
      }
      // Everything has been consumed: the bounds check behind the source's loop cannot fire.
      assert iNdEx == |dAtA|;
      err := None;
    }

    method Size() returns (n: nat)
      requires |Encoded()| <= MAX_INT64
      ensures n == |Encoded()|
    {
      hide Delimit, Sov;
      EncodedSize(NO_NESTED, View(), 0);
      n := 0;
      for k := 0 to |certChain|
        invariant n + |DelimitAll(1, certChain[k..])| == |DelimitAll(1, certChain)|
      {
        var l := |certChain[k]|;
        assert certChain[k..][1..] == certChain[k + 1..];
        DelimitSize(1, certChain[k]);
        n := n + 1 + l + Sov(l);
      }
    }

    /** Writes the message backwards so that it ends at `length`; returns its size. */
    method MarshalToSizedBuffer(dAtA: array<byte>, length: nat) returns (n: nat)
      requires |Encoded()| <= MAX_INT64
      requires |Encoded()| <= length <= dAtA.Length
      modifies dAtA
      ensures n == |Encoded()|
      ensures Written(dAtA[..], old(dAtA[..]), length - n, Encoded())
    {
      hide Written, EncodeFrom, Delimit;
      ghost var m, before := View(), dAtA[..];
      EncodedSize(NO_NESTED, m, 0);
      var i: nat, iNdEx: nat := length, |certChain|;
      NothingWrittenAt(before, i);
      while iNdEx > 0
        invariant iNdEx <= |certChain|
        invariant i + |DelimitAll(1, certChain[iNdEx..])| == length
        invariant Written(dAtA[..], before, i, DelimitAll(1, certChain[iNdEx..]))
      {
        iNdEx := iNdEx - 1;
        assert certChain[iNdEx..][1..] == certChain[iNdEx + 1..];
        DelimitAllSuffix(1, certChain, iNdEx);
        ghost var mid := dAtA[..];
        i := WriteDelimited(dAtA, i, 1, certChain[iNdEx]);
        WrittenBefore(dAtA[..], mid, before, i, Delimit(1, certChain[iNdEx]), DelimitAll(1, certChain[iNdEx + 1..]));
      }
      assert certChain[0..] == certChain;
      assert EncodeFrom(NO_NESTED, m, 0) == DelimitAll(1, certChain) by {
        SingleField(m);
      }
      n := length - i;
    }

    method Marshal() returns (data: seq<byte>)
      requires |Encoded()| <= MAX_INT64
      ensures data == Encoded()
    {
      var size := Size();
      var dAtA := new byte[size];
      var n := MarshalToSizedBuffer(dAtA, size);
      data := dAtA[..n];
    }

    /** Fills the front of a caller's buffer and leaves the rest of it alone. */
    method MarshalTo(dAtA: array<byte>) returns (n: nat)
      requires |Encoded()| <= MAX_INT64
      requires |Encoded()| <= dAtA.Length
      modifies dAtA
      ensures n == |Encoded()|
      ensures dAtA[..] == Encoded() + old(dAtA[n..])
    {
      var size := Size();
      n := MarshalToSizedBuffer(dAtA, size);
    }

    /** Marshalling this message and unmarshalling the bytes into a fresh one. */
    method Copy() returns (y: IstioCertificateResponse, equal: bool)
      requires |Encoded()| <= MAX_INT64
      ensures fresh(y)
      ensures equal && y.certChain == certChain
    {
      hide Decode, EncodeFrom, Lawful;
      NoNestedIsLawful();
      RoundTrip(NO_NESTED, CERTIFICATE_RESPONSE, View());
      var data := Marshal();
      y := new IstioCertificateResponse();
      var err := y.Unmarshal(data);
      assert y.View()[0] == NormalValue(View()[0]);
      assert y.View() == View();
      equal := Equal(this, Pointer(y));
    }
  }

  lemma SingleField(m: seq<Value<()>>)
    requires |m| == 1
    ensures EncodeFrom(NO_NESTED, m, 0) == EncodeValue(NO_NESTED, 1, m[0])
  {
    assert EncodeFrom(NO_NESTED, m, 1) == [];
  }
}
