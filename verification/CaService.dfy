/** The messages of security/proto/ca_service.pb.go. */
module CaService {
  import opened Sequences
  import opened Wire
  import opened Schema
  import opened Buffers
  import opened Encoding

  const CSR_REQUEST: seq<Kind> := [BytesKind, BytesKind, StringKind, Int32Kind]

  const CSR_RESPONSE: seq<Kind> := [BoolKind, NestedKind, BytesKind, BytesKind]

  class CsrRequest {
    var csrPem: Option<seq<byte>>
    var nodeAgentCredential: Option<seq<byte>>
    var credentialType: seq<byte>
    var requestedTtlMinutes: int32

    constructor ()
      ensures View() == Zero(CSR_REQUEST)
    {
      csrPem, nodeAgentCredential, credentialType, requestedTtlMinutes := None, None, [], 0;
    }

    function View(): (m: seq<Value<()>>)
      reads this
      ensures HasSchema(m, CSR_REQUEST)
    {
      [BytesValue(csrPem), BytesValue(nodeAgentCredential), StringValue(credentialType), Int32Value(requestedTtlMinutes)]
    }

    /** The bytes this message stands for. */
    function Encoded(): seq<byte>
      reads this
    {
      EncodeMessage(NO_NESTED, View())
    }

    /** The bytes on the wire, field by field: each with its tag byte, in the order of the tags. */
    lemma EncodedExactly()
      ensures Encoded()
           == DelimitedBytes(0x0A, Content(csrPem)) +
              (DelimitedBytes(0x12, Content(nodeAgentCredential)) +
              (DelimitedBytes(0x1A, credentialType) +
              ScalarBytes(0x20, requestedTtlMinutes)))
    {
      hide HasSchema, HasKind, EncodeValue, EncodeFrom, DelimitedBytes, ScalarBytes, ItemBytes, EncodeVarint;
      var m := View();
      ValueBytes(NO_NESTED, 1, m[0]);
      LastField(NO_NESTED, m, 0);
      ValueBytes(NO_NESTED, 2, m[1]);
      LastField(NO_NESTED, m, 1);
      ValueBytes(NO_NESTED, 3, m[2]);
      LastField(NO_NESTED, m, 2);
      ValueBytes(NO_NESTED, 4, m[3]);
      LastField(NO_NESTED, m, 3);
    }

    // The cases of the field switch in the decoding loop.

    method UnmarshalCsrPem(dAtA: seq<byte>, preIndex: nat, tagEnd: nat, wireType: nat) returns (iNdEx: nat, err: Option<Error>)
      requires preIndex <= tagEnd <= |dAtA| <= MAX_INT64
      modifies this`csrPem
      ensures err.None? ==> tagEnd < iNdEx <= |dAtA|
      ensures wireType != 2 ==> err == Some(WrongWireType(wireType, 1)) && View() == old(View())
      ensures wireType == 2 ==>
                StepKnown(NO_NESTED, CSR_REQUEST, old(View()), 0, dAtA[preIndex..], tagEnd - preIndex, preIndex)
                == if err.None? then Next(View(), iNdEx - preIndex) else Stop(View(), err.value)
    {
      hide StepKnown, ReadVarint, ReadDelimited;
      ghost var m := View();
      StepDelimited(NO_NESTED, CSR_REQUEST, m, 0, dAtA[preIndex..], tagEnd - preIndex, preIndex);
      var start, postIndex;
      start, postIndex, err := DecodeDelimited(dAtA, tagEnd, 1, wireType, preIndex);
      iNdEx := postIndex;
      if err.None? {
        csrPem := Some(dAtA[start..postIndex]);
        assert View() == m[0 := View()[0]];
      }
    }

    method UnmarshalNodeAgentCredential(dAtA: seq<byte>, preIndex: nat, tagEnd: nat, wireType: nat) returns (iNdEx: nat, err: Option<Error>)
      requires preIndex <= tagEnd <= |dAtA| <= MAX_INT64
      modifies this`nodeAgentCredential
      ensures err.None? ==> tagEnd < iNdEx <= |dAtA|
      ensures wireType != 2 ==> err == Some(WrongWireType(wireType, 2)) && View() == old(View())
      ensures wireType == 2 ==>
                StepKnown(NO_NESTED, CSR_REQUEST, old(View()), 1, dAtA[preIndex..], tagEnd - preIndex, preIndex)
                == if err.None? then Next(View(), iNdEx - preIndex) else Stop(View(), err.value)
    {
      hide StepKnown, ReadVarint, ReadDelimited;
      ghost var m := View();
      StepDelimited(NO_NESTED, CSR_REQUEST, m, 1, dAtA[preIndex..], tagEnd - preIndex, preIndex);
      var start, postIndex;
      start, postIndex, err := DecodeDelimited(dAtA, tagEnd, 2, wireType, preIndex);
      iNdEx := postIndex;
      if err.None? {
        nodeAgentCredential := Some(dAtA[start..postIndex]);
        assert View() == m[1 := View()[1]];
      }
    }

    method UnmarshalCredentialType(dAtA: seq<byte>, preIndex: nat, tagEnd: nat, wireType: nat) returns (iNdEx: nat, err: Option<Error>)
      requires preIndex <= tagEnd <= |dAtA| <= MAX_INT64
      modifies this`credentialType
      ensures err.None? ==> tagEnd < iNdEx <= |dAtA|
      ensures wireType != 2 ==> err == Some(WrongWireType(wireType, 3)) && View() == old(View())
      ensures wireType == 2 ==>
                StepKnown(NO_NESTED, CSR_REQUEST, old(View()), 2, dAtA[preIndex..], tagEnd - preIndex, preIndex)
                == if err.None? then Next(View(), iNdEx - preIndex) else Stop(View(), err.value)
    {
      hide StepKnown, ReadVarint, ReadDelimited;
      ghost var m := View();
      StepDelimited(NO_NESTED, CSR_REQUEST, m, 2, dAtA[preIndex..], tagEnd - preIndex, preIndex);
      var start, postIndex;
      start, postIndex, err := DecodeDelimited(dAtA, tagEnd, 3, wireType, preIndex);
      iNdEx := postIndex;
      if err.None? {
        credentialType := dAtA[start..postIndex];
        assert View() == m[2 := View()[2]];
      }
    }

    method UnmarshalRequestedTtlMinutes(dAtA: seq<byte>, preIndex: nat, tagEnd: nat, wireType: nat)
      returns (iNdEx: nat, err: Option<Error>)
      requires preIndex <= tagEnd <= |dAtA| <= MAX_INT64
      modifies this`requestedTtlMinutes
      ensures err.None? ==> tagEnd < iNdEx <= |dAtA|
      ensures wireType != 0 ==> err == Some(WrongWireType(wireType, 4)) && View() == old(View())
      ensures wireType == 0 ==>
                StepKnown(NO_NESTED, CSR_REQUEST, old(View()), 3, dAtA[preIndex..], tagEnd - preIndex, preIndex)
                == if err.None? then Next(View(), iNdEx - preIndex) else Stop(View(), err.value)
    {
      hide StepKnown, ReadVarint, ToInt32;
      ghost var m := View();
      StepInt32(NO_NESTED, CSR_REQUEST, m, 3, dAtA[preIndex..], tagEnd - preIndex, preIndex);
      var word;
      word, iNdEx, err := DecodeScalar(dAtA, tagEnd, 4, wireType, 32, preIndex);
      if wireType == 0 {
        requestedTtlMinutes := ToInt32(word);
        assert View() == m[3 := Int32Value(requestedTtlMinutes)];
      }
    }

    /** The body of the decoding loop. */
    method UnmarshalRecord(dAtA: seq<byte>, preIndex: nat) returns (iNdEx: nat, err: Option<Error>)
      requires preIndex < |dAtA| <= MAX_INT64
      modifies this
      ensures err.None? ==> preIndex < iNdEx <= |dAtA|
      ensures Step(NO_NESTED, CSR_REQUEST, old(View()), dAtA[preIndex..], preIndex)
           == if err.None? then Next(View(), iNdEx - preIndex) else Stop(View(), err.value)
    {
      hide HasSchema, HasKind, ToInt32, ToInt64, Step, StepKnown, FieldNumber, ReadVarint, ReadDelimited, ReadUnknown;
      ghost var s, m := dAtA[preIndex..], View();
      var fieldNum, wireType;
      fieldNum, wireType, iNdEx, err := DecodeTag(dAtA, preIndex);
      if err.Some? {
        StepBadTag(NO_NESTED, CSR_REQUEST, m, s, preIndex);
        return;
      }
      StepByTag(NO_NESTED, CSR_REQUEST, m, s, preIndex);
      match fieldNum {
        case 1 =>
          iNdEx, err := UnmarshalCsrPem(dAtA, preIndex, iNdEx, wireType);
        case 2 =>
          iNdEx, err := UnmarshalNodeAgentCredential(dAtA, preIndex, iNdEx, wireType);
        case 3 =>
          iNdEx, err := UnmarshalCredentialType(dAtA, preIndex, iNdEx, wireType);
        case 4 =>
          iNdEx, err := UnmarshalRequestedTtlMinutes(dAtA, preIndex, iNdEx, wireType);
        case _ =>
          iNdEx, err := SkipUnknown(dAtA, preIndex);
      }
    }

    method Unmarshal(dAtA: seq<byte>) returns (err: Option<Error>)
      requires |dAtA| <= MAX_INT64
      modifies this
      ensures Decode(NO_NESTED, CSR_REQUEST, old(View()), dAtA, 0)
           == if err.None? then Decoded(View()) else Stopped(View(), err.value)
    {
      hide Step;
      var iNdEx := 0;
      while iNdEx < |dAtA|
        invariant iNdEx <= |dAtA|
        invariant Decode(NO_NESTED, CSR_REQUEST, old(View()), dAtA, 0)
               == Decode(NO_NESTED, CSR_REQUEST, View(), dAtA[iNdEx..], iNdEx)
      {
        var preIndex := iNdEx;
        iNdEx, err := UnmarshalRecord(dAtA, preIndex);
        if err.Some? {
          return;
        }
        DropDrop(dAtA, preIndex, iNdEx - preIndex);
      }
      // Everything has been consumed: the bounds check behind the source's loop cannot fire.
      assert iNdEx == |dAtA|;
      err := None;
    }

    method Size() returns (n: nat)
      requires |Encoded()| <= MAX_INT64
      ensures n == |Encoded()|
    {
      hide Delimit, EncodeFrom, EncodeVarint, Sov;
      EncodedSize(NO_NESTED, View(), 3);
      EncodedSize(NO_NESTED, View(), 2);
      EncodedSize(NO_NESTED, View(), 1);
      EncodedSize(NO_NESTED, View(), 0);
      n := 0;
      if |Content(csrPem)| > 0 {
        var l := |Content(csrPem)|;
        DelimitSize(1, Content(csrPem));
        n := n + 1 + l + Sov(l);
      }
      if |Content(nodeAgentCredential)| > 0 {
        var l := |Content(nodeAgentCredential)|;
        DelimitSize(2, Content(nodeAgentCredential));
        n := n + 1 + l + Sov(l);
      }
      if |credentialType| > 0 {
        var l := |credentialType|;
        DelimitSize(3, credentialType);
        n := n + 1 + l + Sov(l);
      }
      if requestedTtlMinutes != 0 {
        VarintFieldSize(4, ToUint64(requestedTtlMinutes));
        n := n + 1 + Sov(ToUint64(requestedTtlMinutes));
      }
    }

    /** Writes the message backwards so that it ends at `length`; returns its size. */
    method MarshalToSizedBuffer(dAtA: array<byte>, length: nat) returns (n: nat)
      requires |Encoded()| <= MAX_INT64
      requires |Encoded()| <= length <= dAtA.Length
      modifies dAtA
      ensures n == |Encoded()|
      ensures Written(dAtA[..], old(dAtA[..]), length - n, Encoded())
    {
      hide Written, EncodeFrom, Delimit, DelimitNonEmpty, VarintNonZero, ToUint64, Content;
      ghost var m, before := View(), dAtA[..];
      EncodedSize(NO_NESTED, m, 3);
      EncodedSize(NO_NESTED, m, 2);
      EncodedSize(NO_NESTED, m, 1);
      EncodedSize(NO_NESTED, m, 0);
      var i := length;
      NothingWrittenAt(before, i);
      ghost var s3 := dAtA[..];
      i := WriteNonZero(dAtA, i, 4, ToUint64(requestedTtlMinutes));
      FieldWritten(NO_NESTED, m, 3, dAtA[..], s3, before, i);
      ghost var s2 := dAtA[..];
      i := WriteNonEmpty(dAtA, i, 3, credentialType);
      FieldWritten(NO_NESTED, m, 2, dAtA[..], s2, before, i);
      ghost var s1 := dAtA[..];
      i := WriteNonEmpty(dAtA, i, 2, Content(nodeAgentCredential));
      FieldWritten(NO_NESTED, m, 1, dAtA[..], s1, before, i);
      ghost var s0 := dAtA[..];
      i := WriteNonEmpty(dAtA, i, 1, Content(csrPem));
      FieldWritten(NO_NESTED, m, 0, dAtA[..], s0, before, i);
      n := length - i;
    }

    method Marshal() returns (data: seq<byte>)
      requires |Encoded()| <= MAX_INT64
      ensures data == Encoded()
    {
      var size := Size();
      var dAtA := new byte[size];
      var n := MarshalToSizedBuffer(dAtA, size);
      data := dAtA[..n];
    }

    /** Fills the front of a caller's buffer and leaves the rest of it alone. */
    method MarshalTo(dAtA: array<byte>) returns (n: nat)
      requires |Encoded()| <= MAX_INT64
      requires |Encoded()| <= dAtA.Length
      modifies dAtA
      ensures n == |Encoded()|
      ensures dAtA[..] == Encoded() + old(dAtA[n..])
    {
      var size := Size();
      n := MarshalToSizedBuffer(dAtA, size);
    }

    /** Marshalling this message and unmarshalling the bytes into a fresh one. */
    method Copy() returns (y: CsrRequest)
      requires |Encoded()| <= MAX_INT64
      ensures fresh(y)
      ensures y.csrPem == if |Content(csrPem)| == 0 then None else csrPem // nil and empty bytes look alike on the wire
      ensures y.nodeAgentCredential == if |Content(nodeAgentCredential)| == 0 then None else nodeAgentCredential
      ensures y.credentialType == credentialType
      ensures y.requestedTtlMinutes == requestedTtlMinutes
    {
      hide Decode, EncodeFrom, Lawful;
      NoNestedIsLawful();
      RoundTrip(NO_NESTED, CSR_REQUEST, View());
      var data := Marshal();
      y := new CsrRequest();
      var err := y.Unmarshal(data);
      assert y.View()[0] == NormalValue(View()[0]);
      assert y.View()[1] == NormalValue(View()[1]);
      assert y.View()[2] == NormalValue(View()[2]);
      assert y.View()[3] == NormalValue(View()[3]);
    }
  }

  /** S is the nested status message, which belongs to another package; `refuses` says
      whether its marshaller returns an error. */
  class CsrResponse<S(!new)> {
    const codec: Codec<S>
    const refuses: S -> bool
    var isApproved: bool
    var status: Option<S>
    var signedCert: Option<seq<byte>>
    var certChain: Option<seq<byte>>

    constructor (codec: Codec<S>, refuses: S -> bool)
      ensures this.codec == codec && this.refuses == refuses && View() == Zero(CSR_RESPONSE)
    {
      this.codec, this.refuses := codec, refuses;
      isApproved, status, signedCert, certChain := false, None, None, None;
    }

    function View(): (m: seq<Value<S>>)
      reads this
      ensures HasSchema(m, CSR_RESPONSE)
    {
      [BoolValue(isApproved), NestedValue(status), BytesValue(signedCert), BytesValue(certChain)]
    }

    /** The bytes this message stands for. */
    function Encoded(): seq<byte>
      reads this
    {
      EncodeMessage(codec, View())
    }

    /** The bytes on the wire, field by field: each with its tag byte, in the order of the tags. */
    lemma EncodedExactly()
      ensures Encoded()
           == FlagBytes(0x08, isApproved) +
              (NestedBytes(0x12, if status.None? then None else Some(codec.encode(status.value))) +
              (DelimitedBytes(0x1A, Content(signedCert)) +
              DelimitedBytes(0x22, Content(certChain))))
    {
      hide HasSchema, HasKind, EncodeValue, EncodeFrom, DelimitedBytes, FlagBytes, NestedBytes, EncodeVarint;
      var m := View();
      ValueBytes(codec, 1, m[0]);
      LastField(codec, m, 0);
      ValueBytes(codec, 2, m[1]);
      LastField(codec, m, 1);
      ValueBytes(codec, 3, m[2]);
      LastField(codec, m, 2);
      ValueBytes(codec, 4, m[3]);
      LastField(codec, m, 3);
    }

    /** A response that has only been approved. */
    lemma ApprovedBytes()
      requires isApproved && status.None? && Content(signedCert) == Content(certChain) == []
      ensures Encoded() == [0x08, 0x01]
    {
      EncodedExactly();
      hide EncodeMessage;
    }

    /** Decodes into the nested message, which is created first where it is nil. */
    method UnmarshalStatus(data: seq<byte>) returns (ok: bool)
      modifies this`status
      ensures var (x, decoded) := codec.decode(if old(status).Some? then old(status).value else codec.zero, data);
              View() == old(View())[1 := NestedValue(Some(x))] && ok == decoded
    {
      ghost var m := View();
      var (x, decoded) := codec.decode(if status.Some? then status.value else codec.zero, data);
      status, ok := Some(x), decoded;
      assert View() == m[1 := View()[1]];
    }

    /** The body of the decoding loop. */
    method UnmarshalRecord(dAtA: seq<byte>, preIndex: nat) returns (iNdEx: nat, err: Option<Error>)
      requires preIndex < |dAtA| <= MAX_INT64
      modifies this
      ensures err.None? ==> preIndex < iNdEx <= |dAtA|
      ensures Step(codec, CSR_RESPONSE, old(View()), dAtA[preIndex..], preIndex)
           == if err.None? then Next(View(), iNdEx - preIndex) else Stop(View(), err.value)
    {
      hide HasSchema, HasKind, ToInt32, ToInt64, Step, StepKnown, FieldNumber, ReadVarint, ReadDelimited, ReadUnknown;
      ghost var s, m := dAtA[preIndex..], View();
      var fieldNum, wireType;
      fieldNum, wireType, iNdEx, err := DecodeTag(dAtA, preIndex);
      if err.Some? {
        StepBadTag(codec, CSR_RESPONSE, m, s, preIndex);
        return;
      }
      StepByTag(codec, CSR_RESPONSE, m, s, preIndex);
      match fieldNum {
        case 1 =>
          StepBool(codec, CSR_RESPONSE, m, 0, s, iNdEx - preIndex, preIndex);
          var word;
          word, iNdEx, err := DecodeScalar(dAtA, iNdEx, fieldNum, wireType, 64, preIndex);
          if wireType == 0 {
            if err.Some? {
              return;
            }
            isApproved := word != 0;
            assert View() == m[0 := BoolValue(isApproved)];
          }
        case 2 =>
          StepNested(codec, CSR_RESPONSE, m, 1, s, iNdEx - preIndex, preIndex);
          var start, postIndex;
          start, postIndex, err := DecodeDelimited(dAtA, iNdEx, fieldNum, wireType, preIndex);
          if err.Some? {
            return;
          }
          var ok := UnmarshalStatus(dAtA[start..postIndex]);
          if !ok {
            return iNdEx, Some(NestedError);
          }
          iNdEx := postIndex;
        case 3 =>
          StepDelimited(codec, CSR_RESPONSE, m, 2, s, iNdEx - preIndex, preIndex);
          var start, postIndex;
          start, postIndex, err := DecodeDelimited(dAtA, iNdEx, fieldNum, wireType, preIndex);
          if err.Some? {
            return;
          }
          signedCert := Some(dAtA[start..postIndex]);
          assert View() == m[2 := View()[2]];
          iNdEx := postIndex;
        case 4 =>
          StepDelimited(codec, CSR_RESPONSE, m, 3, s, iNdEx - preIndex, preIndex);
          var start, postIndex;
          start, postIndex, err := DecodeDelimited(dAtA, iNdEx, fieldNum, wireType, preIndex);
          if err.Some? {
            return;
          }
          certChain := Some(dAtA[start..postIndex]);
          assert View() == m[3 := View()[3]];
          iNdEx := postIndex;
        case _ =>
          iNdEx, err := SkipUnknown(dAtA, preIndex);
      }
    }

    method Unmarshal(dAtA: seq<byte>) returns (err: Option<Error>)
      requires |dAtA| <= MAX_INT64
      modifies this
      ensures Decode(codec, CSR_RESPONSE, old(View()), dAtA, 0)
           == if err.None? then Decoded(View()) else Stopped(View(), err.value)
    {
      hide Step;
      var iNdEx := 0;
      while iNdEx < |dAtA|
        invariant iNdEx <= |dAtA|
        invariant Decode(codec, CSR_RESPONSE, old(View()), dAtA, 0)
               == Decode(codec, CSR_RESPONSE, View(), dAtA[iNdEx..], iNdEx)
      {
        var preIndex := iNdEx;
        iNdEx, err := UnmarshalRecord(dAtA, preIndex);
        if err.Some? {
          return;
        }
        DropDrop(dAtA, preIndex, iNdEx - preIndex);
      }
      // Everything has been consumed: the bounds check behind the source's loop cannot fire.
      assert iNdEx == |dAtA|;
      err := None;
    }

    method Size() returns (n: nat)
      requires |Encoded()| <= MAX_INT64
      ensures n == |Encoded()|
    {
      hide Delimit, EncodeFrom, EncodeVarint, Sov;
      EncodedSize(codec, View(), 3);
      EncodedSize(codec, View(), 2);
      EncodedSize(codec, View(), 1);
      EncodedSize(codec, View(), 0);
      n := 0;
      if isApproved {
        OneIsVarint();
        VarintFieldSize(1, 1);
        n := n + 2;
      }
      if status.Some? {
        var l := |codec.encode(status.value)|;
        DelimitSize(2, codec.encode(status.value));
        n := n + 1 + l + Sov(l);
      }
      if |Content(signedCert)| > 0 {
        var l := |Content(signedCert)|;
        DelimitSize(3, Content(signedCert));
        n := n + 1 + l + Sov(l);
      }
      if |Content(certChain)| > 0 {
        var l := |Content(certChain)|;
        DelimitSize(4, Content(certChain));
        n := n + 1 + l + Sov(l);
      }
    }

    /** The nested message cannot be marshalled. */
    predicate Refused()
      reads this
    {
      status.Some? && refuses(status.value)
    }

    /** Writes the message backwards so that it ends at `length`; returns its size.  If the
        nested message is refused, the front of the buffer holds no promise. */
    method MarshalToSizedBuffer(dAtA: array<byte>, length: nat) returns (n: nat, err: Option<Error>)
      requires |Encoded()| <= MAX_INT64
      requires |Encoded()| <= length <= dAtA.Length
      modifies dAtA
      ensures err == if Refused() then Some(NestedError) else None
      ensures err.Some? ==> n == 0 && dAtA[length..] == old(dAtA[length..])
      ensures err.None? ==> n == |Encoded()| && Written(dAtA[..], old(dAtA[..]), length - n, Encoded())
    {
      hide Written, EncodeFrom, Delimit, DelimitNonEmpty, VarintNonZero, ToUint64, Content;
      ghost var m, before := View(), dAtA[..];
      EncodedSize(codec, m, 3);
      EncodedSize(codec, m, 2);
      EncodedSize(codec, m, 1);
      EncodedSize(codec, m, 0);
      var i := length;
      NothingWrittenAt(before, i);
      ghost var s3 := dAtA[..];
      i := WriteNonEmpty(dAtA, i, 4, Content(certChain));
      FieldWritten(codec, m, 3, dAtA[..], s3, before, i);
      ghost var s2 := dAtA[..];
      i := WriteNonEmpty(dAtA, i, 3, Content(signedCert));
      FieldWritten(codec, m, 2, dAtA[..], s2, before, i);
      ghost var s1 := dAtA[..];
      if status.Some? {
        if refuses(status.value) {
          BehindUntouched(dAtA[..], before, i, length, EncodeFrom(codec, m, 2));
          return 0, Some(NestedError);
        }
        i := WriteDelimited(dAtA, i, 2, codec.encode(status.value));
      } else {
        NothingWrittenAt(s1, i);
      }
      FieldWritten(codec, m, 1, dAtA[..], s1, before, i);
      ghost var s0 := dAtA[..];
      i := WriteNonZero(dAtA, i, 1, if isApproved then 1 else 0);
      FieldWritten(codec, m, 0, dAtA[..], s0, before, i);
      n, err := length - i, None;
    }

    /** The data is nil when there is an error. */
    method Marshal() returns (data: Option<seq<byte>>, err: Option<Error>)
      requires |Encoded()| <= MAX_INT64
      ensures err == if Refused() then Some(NestedError) else None
      ensures data == if Refused() then None else Some(Encoded())
    {
      var size := Size();
      var dAtA := new byte[size];
      var n;
      n, err := MarshalToSizedBuffer(dAtA, size);
      if err.Some? {
        return None, err;
      }
      data := Some(dAtA[..n]);
    }

    /** Fills the front of a caller's buffer and leaves the rest of it alone. */
    method MarshalTo(dAtA: array<byte>) returns (n: nat, err: Option<Error>)
      requires |Encoded()| <= MAX_INT64
      requires |Encoded()| <= dAtA.Length
      modifies dAtA
      ensures err == if Refused() then Some(NestedError) else None
      ensures err.Some? ==> n == 0 && dAtA[|Encoded()|..] == old(dAtA[|Encoded()|..])
      ensures err.None? ==> n == |Encoded()| && dAtA[..] == Encoded() + old(dAtA[n..])
    {
      var size := Size();
      n, err := MarshalToSizedBuffer(dAtA, size);
    }

    /** Marshalling this message and unmarshalling the bytes into a fresh one. */
    method Copy() returns (y: CsrResponse<S>, err: Option<Error>)
      requires Lawful(codec)
      requires |Encoded()| <= MAX_INT64
      ensures fresh(y)
      ensures err == if Refused() then Some(NestedError) else None
      ensures err.None? ==>
                && y.isApproved == isApproved && y.status == status
                && y.signedCert == (if |Content(signedCert)| == 0 then None else signedCert) // nil and empty look alike
                && y.certChain == (if |Content(certChain)| == 0 then None else certChain)
    {
      hide Decode, EncodeFrom, Lawful;
      RoundTrip(codec, CSR_RESPONSE, View());
      var data;
      data, err := Marshal();
      y := new CsrResponse(codec, refuses);
      if err.Some? {
        return;
      }
      err := y.Unmarshal(data.value);
      assert y.View()[0] == NormalValue(View()[0]);
      assert y.View()[1] == NormalValue(View()[1]);
      assert y.View()[2] == NormalValue(View()[2]);
      assert y.View()[3] == NormalValue(View()[3]);
    }
  }

  lemma BehindUntouched(now: seq<byte>, before: seq<byte>, i: nat, length: nat, data: seq<byte>)
    requires Written(now, before, i, data) && i + |data| == length <= |now| == |before|
    ensures now[length..] == before[length..]
  {
  }
}
