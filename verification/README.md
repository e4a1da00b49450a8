# Models of Istio's codecs, restart agent and reconciliation loops

This project models the parts of Istio that hold algorithms of their own and proves what
they are for. `dafny verify dfyconfig.toml` checks all of it.

- **The protobuf wire codec** (`Wire`, `Skipping`, `Schema`, `Meaning`, `Encoding`,
  `Buffers`, `CaService`, `Istioca`). `Wire` to `Encoding` say what the generated code must
  compute, once for every schema, and prove the laws of the wire format: an exact grammar
  of accepted inputs, the records of that grammar as which a message is written, round
  trips, merging, concatenation, the skipping of unknown records. `Buffers` and the four
  message classes are the loops over bytes, proved to compute precisely that, on every
  error path too. The format is that of the Protocol Buffers Encoding specification,
  sections "Base 128 Varints", "Message Structure", "Length-Delimited Records", "Optional
  and Repeated Elements" and "Groups".
- **The hot restart agent** (`AgentProtocol`, `Agent`): a state machine whose steps are
  the critical sections and channel communications of the source, invariants over every
  run, and the loops of Restart and Run, proved to perform legal runs under any
  interference, and to go on as soon as they can.
- **Options and the chain of hot restarts** (`Strings`, `Options`, `OptionContext`,
  `Instances`): parser and printer of Envoy's arguments, validation, and what k hot
  restarts do to a list of options.
- **Multicluster apply** (`Multicluster`, `RemoteSecret`): the reconciliation of all
  remote secrets of a mesh under any combination of failing calls, including when it panics.
- **Work queue and file watcher** (`Queue`, `Watcher`): conservation, order and spacing in
  every interleaving.
- **Two in-place loops** (`Uninject`, `Stats`): slice surgery against a filter, and
  incremental counters against set algebra.

Where code and comments disagree, the model follows the code:

- The agent's header (agent.go:34-37) says that a new epoch is exactly one above the
  highest running one. The code adds one to the latest epoch and launches after a wait;
  `LaunchIsNextIff` gives the exact condition at the launch and `LaunchCanSkip` a run where
  it fails. The header also speaks of retrying a failed epoch under its number, which the
  code does not do.
- The decoder does not compare the field number of an end tag with that of its group,
  drops the bits of a varint above the field's width, and truncates the field number of a
  tag to 32 bits. The grammar of `Skipping` and `Meaning` says so.
- The comment at kubeuninject.go:116-117 names the volume istio-token; the code removes
  istio-envoy and istio-certs only.
- Setting `closing` on the queue does not wake Run (`StopCanBlock`, `BlockedExactly`).
- `apply` reports failed calls of applySecret only in its log, and panics on an existing
  secret without the maps it has to write (`Fleet.Apply`, `LabelledSecretCrashesApply`). It
  does not refresh the contents of an existing secret (`ContentsAreCurrentExactly`).
- A component log level that is no name:level pair is dropped without an error, so it also
  passes validation.

Machine integers are modelled with their widths where the code depends on them: 64-bit
lengths and indexes that may wrap, truncating shifts, sign extension, the uint32 epoch and
base ID. Buffers are no longer than a Go slice can be.

## Model

| member | source | states |
|---|---|---|
| Wire.SignExtensionRoundTrip | istio-refs/istio-refs/security/proto/ca_service.pb.go:266-270 | A signed 64- or 32-bit value that was sign-extended to 64 bits is recovered by the decoder's conversion at its own width. |
| Wire.AccumulateGroup | istio-refs/istio-refs/security/proto/ca_service.pb.go:459-472 | Or-ing a shifted 7-bit group into the accumulated word, at 32 or 64 bits, is adding it at its place and truncating: the loop computes the number the groups spell. |
| Wire.ReadVarintExact | istio-refs/istio-refs/security/proto/ca_service.pb.go:459-472 | A read yields value v after n bytes if and only if the first n bytes are a varint of at most ten bytes whose groups spell v. |
| Wire.ReadVarintFailsExactly | istio-refs/istio-refs/security/proto/ca_service.pb.go:459-472 | A read fails exactly when there is no end within ten bytes: with end of input if the bytes run out, with overflow if there are ten continuation bytes. |
| Wire.ReadVarintIgnoresRest | istio-refs/istio-refs/security/proto/ca_service.pb.go:459-472 | A successful read does not look behind the varint. |
| Wire.EncodeVarintIsVarint | istio-refs/istio-refs/security/proto/ca_service.pb.go:354-363 | What is written for a 64-bit value is a varint of at most ten bytes that spells it. |
| Wire.VarintRoundTrip | istio-refs/istio-refs/security/proto/ca_service.pb.go:354-363 | Reading what was written for any 64-bit value returns the value and the exact length, whatever follows. |
| Wire.SovIsEncodedLength | istio-refs/istio-refs/security/proto/ca_service.pb.go:413-415 | sov(v), computed from the bit length, is the number of bytes encodeVarint writes, for every 64-bit v. |
| Skipping.SkipComplete | istio-refs/istio-refs/security/proto/ca_service.pb.go:802-906 | The skipper returns exactly the length of a well-formed record of any wire type, with groups nested to any depth, whatever follows. |
| Skipping.SkipGroupSound | istio-refs/istio-refs/security/proto/ca_service.pb.go:866-895 | When the loop over a group succeeds, what it has passed over is a sequence of well-formed records and an end tag. |
| Skipping.SkipSound | istio-refs/istio-refs/security/proto/ca_service.pb.go:802-906 | When the skipper succeeds within the buffer, the bytes passed over are the encoding of a well-formed record, which the lemma constructs. |
| Skipping.SkipExact | istio-refs/istio-refs/security/proto/ca_service.pb.go:802-906 | The skipper returns n inside the buffer if and only if the first n bytes are one well-formed record of the grammar. |
| Skipping.SkipIgnoresRest | istio-refs/istio-refs/security/proto/ca_service.pb.go:802-906 | A skip that ends inside the buffer is not influenced by the bytes behind the record. |
| Schema.Step | istio-refs/istio-refs/security/proto/ca_service.pb.go:456-617 | Decoding one record consumes at least one byte, never passes the end of the buffer, and keeps the message's types: termination and bounds, in spite of wrapping lengths. |
| Schema.StepChangesOneField | istio-refs/istio-refs/security/proto/ca_service.pb.go:481-617 | A record changes no field but the one its tag names, on errors too. |
| Schema.StepIgnoresRest | istio-refs/istio-refs/security/proto/ca_service.pb.go:456-617 | A record is decoded the same way when more bytes follow it. |
| Schema.DecodeConcat | istio-refs/istio-refs/security/proto/ca_service.pb.go:453-624 | If a decodes, then decoding a ++ b at any index is decoding a and then b where it stands, for every a and b, unknown fields and groups included. |
| Schema.UnmarshalConcat | istio-refs/istio-refs/security/proto/ca_service.pb.go:453-624 | If a unmarshals, then Unmarshal(a ++ b) has the outcome of Unmarshal(a) followed by Unmarshal(b) into the same message, up to the choice between two length errors in b. |
| Schema.DecodeBase | istio-refs/istio-refs/security/proto/ca_service.pb.go:456-617 | The outcome does not depend on the index at which the bytes stand, up to the choice between the two length errors. |
| Schema.UnknownRecordsAreIgnored | istio-refs/istio-refs/security/proto/ca_service.pb.go:601-617 | Inserting a well-formed record of an unknown field between two parts of an input does not change the decoded message. |
| Schema.ValueRoundTrip | istio-refs/istio-refs/security/proto/ca_service.pb.go:246-293 | Decoding one encoded field merges it into that field, and nothing else is touched. |
| Schema.UnmarshalMerges | istio-refs/istio-refs/security/proto/istioca.pb.go:634-718 | Unmarshalling an encoded message into any message merges: scalars and bytes take the last value, repeated strings append, absent fields stay. |
| Schema.RoundTrip | istio-refs/istio-refs/security/proto/ca_service.pb.go:246-293 | Unmarshalling a marshalled message into a fresh one succeeds and returns it field by field, empty bytes becoming nil. |
| Meaning.RecordsAreDecoded | istio-refs/istio-refs/security/proto/ca_service.pb.go:453-624 | A concatenation of encoded records that fit the schema decodes to the result of applying the records one by one. |
| Meaning.DecodedConsistsOfRecords | istio-refs/istio-refs/security/proto/ca_service.pb.go:453-624 | Whatever Unmarshal accepts is the encoding of a sequence of well-formed, fitting records, and the result is their application. |
| Meaning.DecodeExact | istio-refs/istio-refs/security/proto/ca_service.pb.go:453-624 | Unmarshal accepts an input with result m' if and only if the input is a concatenation of well-formed records whose application gives m': the wire format as a grammar against the loop with its shifts and checks. |
| Encoding.ValueIsRecords | istio-refs/istio-refs/security/proto/ca_service.pb.go:261-293 | Every field value is written as the records of the wire grammar that it calls for, with the right field number, wire type and contents: none for a zero value, one per element of a repeated field; a number spelled as its two's complement, true as 1. |
| Encoding.MessageIsRecords | istio-refs/istio-refs/security/proto/ca_service.pb.go:246-293 | An encoded message is the concatenation of well-formed records of the independent grammar, field by field in the order of their numbers. |
| Encoding.ValueBytes | istio-refs/istio-refs/security/proto/ca_service.pb.go:261-293 | The bytes of one field: tag, length and contents, or tag and varint; nothing for nil, empty and zero values. |
| Encoding.ReadDelimitedExactly | istio-refs/istio-refs/security/proto/ca_service.pb.go:483-510 | In unbounded integers: a payload is handed out exactly if it lies in the buffer; a length or an end index of 2^63 or more is an invalid length, a payload that is only cut off an unexpected end. |
| Buffers.DecodeVarint | istio-refs/istio-refs/security/proto/ca_service.pb.go:459-472 | The inline loop with its shift counter returns value, index and error of the recursive specification, at 32 and at 64 bits, and the partial value on errors. |
| Buffers.SkipRecord | istio-refs/istio-refs/security/proto/ca_service.pb.go:802-906 | The skipping loop returns what Skip says; the final panic is reached only for an empty input. |
| Buffers.SkipGroupRecords | istio-refs/istio-refs/security/proto/ca_service.pb.go:866-895 | The loop over a group, with its recursive calls on the rest of the buffer, returns what SkipGroup says. |
| Buffers.DecodeDelimited | istio-refs/istio-refs/security/proto/ca_service.pb.go:483-510 | Length and end index with all overflow checks: an in-bounds slice, or the specified error. |
| Buffers.DecodeScalar | istio-refs/istio-refs/security/proto/ca_service.pb.go:583-600 | A varint field: wire type check, then the accumulated word, also when reading fails. |
| Buffers.DecodeTag | istio-refs/istio-refs/security/proto/ca_service.pb.go:457-480 | Field number (truncated to int32) and wire type, with the two tag errors. |
| Buffers.SkipUnknown | istio-refs/istio-refs/security/proto/ca_service.pb.go:601-617 | The default branch: the index behind the skipped record, or the specified error. |
| Buffers.EncodeVarintBack | istio-refs/istio-refs/security/proto/ca_service.pb.go:354-363 | Writes the varint so that it ends at the offset, into the reserved bytes only, and leaves every other byte alone. |
| Buffers.WriteDelimited | istio-refs/istio-refs/security/proto/ca_service.pb.go:271-277 | Contents, length and tag written backwards are the delimited encoding, and nothing else changes. |
| Buffers.WriteNonZero | istio-refs/istio-refs/security/proto/ca_service.pb.go:266-270 | A scalar field is written backwards unless it is zero, and nothing else changes. |
| CaService.CsrRequest.UnmarshalRecord | istio-refs/istio-refs/security/proto/ca_service.pb.go:453-624 | One round of the loop changes the fields exactly as the specification of one record says, also on every error path. |
| CaService.CsrRequest.Unmarshal | istio-refs/istio-refs/security/proto/ca_service.pb.go:453-624 | The loop decodes the whole input as specified and stops only at its end, so the bounds check behind it is dead; partial results on errors included. |
| CaService.CsrRequest.Size | istio-refs/istio-refs/security/proto/ca_service.pb.go:365-387 | Size predicts the length of the encoding to the byte. |
| CaService.CsrRequest.MarshalToSizedBuffer | istio-refs/istio-refs/security/proto/ca_service.pb.go:261-293 | The backward writer puts exactly the encoding in front of the given end, never indexes below zero, and leaves the bytes before and behind alone. |
| CaService.CsrRequest.Marshal | istio-refs/istio-refs/security/proto/ca_service.pb.go:246-254 | The returned bytes are the whole encoding: the region written starts at index 0. |
| CaService.CsrRequest.MarshalTo | istio-refs/istio-refs/security/proto/ca_service.pb.go:256-259 | The front of the caller's buffer becomes the encoding, the rest is unchanged. |
| CaService.CsrRequest.EncodedExactly | istio-refs/istio-refs/security/proto/ca_service.pb.go:261-293 | The encoding, Go field by Go field: the tag bytes 0x0A, 0x12 and 0x1A with length and contents, and 0x20 with the varint of the TTL. |
| CaService.CsrRequest.Copy | istio-refs/istio-refs/security/proto/ca_service.pb.go:246-293 | Marshal, then Unmarshal into a fresh message: all fields return, negative TTLs included; empty bytes come back nil. |
| CaService.CsrResponse.UnmarshalRecord | istio-refs/istio-refs/security/proto/ca_service.pb.go:625-801 | One round of the loop changes the fields exactly as the specification of one record says, also on every error path. |
| CaService.CsrResponse.Unmarshal | istio-refs/istio-refs/security/proto/ca_service.pb.go:625-801 | The loop decodes the whole input as specified and stops only at its end, so the bounds check behind it is dead; partial results on errors included. |
| CaService.CsrResponse.Size | istio-refs/istio-refs/security/proto/ca_service.pb.go:389-411 | Size predicts the length of the encoding to the byte. |
| CaService.CsrResponse.MarshalToSizedBuffer | istio-refs/istio-refs/security/proto/ca_service.pb.go:310-352 | As for CsrRequest, unless the nested marshaller refuses: exactly then an error and 0 are returned, and the bytes behind the buffer are untouched. |
| CaService.CsrResponse.Marshal | istio-refs/istio-refs/security/proto/ca_service.pb.go:295-303 | The whole encoding, or, exactly if the nested marshaller refuses, nil and an error. |
| CaService.CsrResponse.MarshalTo | istio-refs/istio-refs/security/proto/ca_service.pb.go:305-308 | The front of the caller's buffer becomes the encoding, or, exactly if the nested marshaller refuses, 0 and an error are returned. |
| CaService.CsrResponse.EncodedExactly | istio-refs/istio-refs/security/proto/ca_service.pb.go:310-352 | The encoding, Go field by Go field: tag byte 0x08 and 1 for isApproved, 0x12 and the length for the status, 0x1A and 0x22 for the two certificates. |
| CaService.CsrResponse.ApprovedBytes | istio-refs/istio-refs/security/proto/ca_service.pb.go:341-348 | A response of which only isApproved is set is encoded as 08 01. |
| CaService.CsrResponse.Copy | istio-refs/istio-refs/security/proto/ca_service.pb.go:295-352 | The same with a nested status whose codec is lawful; an error exactly if its marshaller refuses. |
| Istioca.IstioCertificateRequest.UnmarshalRecord | istio-refs/istio-refs/security/proto/istioca.pb.go:498-633 | One round of the loop changes the fields exactly as the specification of one record says, also on every error path. |
| Istioca.IstioCertificateRequest.Unmarshal | istio-refs/istio-refs/security/proto/istioca.pb.go:498-633 | The loop decodes the whole input as specified and stops only at its end, so the bounds check behind it is dead; partial results on errors included. |
| Istioca.IstioCertificateRequest.Size | istio-refs/istio-refs/security/proto/istioca.pb.go:427-445 | Size predicts the length of the encoding to the byte. |
| Istioca.IstioCertificateRequest.MarshalToSizedBuffer | istio-refs/istio-refs/security/proto/istioca.pb.go:357-382 | The backward writer puts exactly the encoding in front of the given end, never indexes below zero, and leaves the bytes before and behind alone. |
| Istioca.IstioCertificateRequest.Marshal | istio-refs/istio-refs/security/proto/istioca.pb.go:342-350 | The returned bytes are the whole encoding: the region written starts at index 0. |
| Istioca.IstioCertificateRequest.MarshalTo | istio-refs/istio-refs/security/proto/istioca.pb.go:352-355 | The front of the caller's buffer becomes the encoding, the rest is unchanged. |
| Istioca.IstioCertificateRequest.EncodedExactly | istio-refs/istio-refs/security/proto/istioca.pb.go:357-382 | The encoding, Go field by Go field: the tag bytes 0x0A and 0x12 with length and contents, and 0x18 with the varint of the duration. |
| Istioca.IstioCertificateRequest.Equal | istio-refs/istio-refs/security/proto/istioca.pb.go:170-199 | Equal decides equality of all fields for every argument of type interface{}: nil, pointers that may be nil, structs, and other types. |
| Istioca.IstioCertificateRequest.Copy | istio-refs/istio-refs/security/proto/istioca.pb.go:342-382 | Marshal, then Unmarshal into a fresh message, gives a message for which Equal answers true. |
| Istioca.IstioCertificateResponse.UnmarshalRecord | istio-refs/istio-refs/security/proto/istioca.pb.go:634-718 | One round of the loop changes the fields exactly as the specification of one record says, also on every error path. |
| Istioca.IstioCertificateResponse.Unmarshal | istio-refs/istio-refs/security/proto/istioca.pb.go:634-718 | The loop decodes the whole input as specified and stops only at its end, so the bounds check behind it is dead; partial results on errors included. |
| Istioca.IstioCertificateResponse.Size | istio-refs/istio-refs/security/proto/istioca.pb.go:447-460 | Size predicts the length of the encoding to the byte. |
| Istioca.IstioCertificateResponse.MarshalToSizedBuffer | istio-refs/istio-refs/security/proto/istioca.pb.go:399-414 | The backward writer puts exactly the encoding in front of the given end, never indexes below zero, and leaves the bytes before and behind alone. |
| Istioca.IstioCertificateResponse.Marshal | istio-refs/istio-refs/security/proto/istioca.pb.go:384-392 | The returned bytes are the whole encoding: the region written starts at index 0. |
| Istioca.IstioCertificateResponse.MarshalTo | istio-refs/istio-refs/security/proto/istioca.pb.go:394-397 | The front of the caller's buffer becomes the encoding, the rest is unchanged. |
| Istioca.IstioCertificateResponse.EncodedExactly | istio-refs/istio-refs/security/proto/istioca.pb.go:399-414 | The encoding: for every certificate of the chain, in order, the tag byte 0x0A, its length and its contents. |
| Istioca.IstioCertificateResponse.Equal | istio-refs/istio-refs/security/proto/istioca.pb.go:200-228 | The element-wise loop decides equality of the certificate chains, for every argument of type interface{}. |
| Istioca.IstioCertificateResponse.Copy | istio-refs/istio-refs/security/proto/istioca.pb.go:384-414 | Marshal, then Unmarshal into a fresh message, gives the same chain in the same order, and Equal answers true. |
| AgentProtocol.ActiveEpochsExact | istio-refs/istio-refs/pkg/envoy/agent.go:210-243 | In every reachable state the keys of activeEpochs are the registered epochs minus those whose exit the loop has dealt with. |
| AgentProtocol.NoMoreActiveExact | istio-refs/istio-refs/pkg/envoy/agent.go:229-235 | Run leaves through "no more active epochs" exactly when every registered epoch has exited and been received and no Restart is under way. |
| AgentProtocol.NewEpochIsAboveActive | istio-refs/istio-refs/pkg/envoy/agent.go:132-147 | A changed config gets the next number, which is above every active epoch; an unchanged one gets none. |
| AgentProtocol.LaunchIsNextIff | istio-refs/istio-refs/pkg/envoy/agent.go:34-37 | What the header demands of a launch: the new epoch is exactly one above the highest running process if and only if the process of the epoch before it is running at the launch. |
| AgentProtocol.LaunchCanSkip | istio-refs/istio-refs/pkg/envoy/agent.go:34-37 | A run in which the latest epoch is active at the registration of the next one and exits during the wait: that one is launched two above the only running process. |
| AgentProtocol.NewEpochIsNextIff | istio-refs/istio-refs/pkg/envoy/agent.go:138-147 | At the registration: the new epoch is one above the highest key of activeEpochs if and only if the latest epoch is still a key. |
| AgentProtocol.NewEpochCanSkip | istio-refs/istio-refs/pkg/envoy/agent.go:138-147 | A run in which the new epoch is registered two above the only active one. |
| AgentProtocol.AgentRefinesChanges | istio-refs/istio-refs/pkg/envoy/agent.go:124-161 | Refinement: epochs 0, 1, 2, ... are launched once each, in order, with the sequence of Restart arguments without consecutive repeats; at most one is registered and not launched. |
| AgentProtocol.LaunchWaits | istio-refs/istio-refs/pkg/envoy/agent.go:138-160 | If epochs were active at the registration, the launch comes only after the previous epoch was seen inactive, the proxy was live, or the timeout fired. |
| AgentProtocol.AbortAllNeverBlocks | istio-refs/istio-refs/pkg/envoy/agent.go:266-274 | Each abort channel is sent at most one message over a whole run and never exceeds its capacity, so abortAll can always proceed while it holds the mutex. |
| Agent.Agent.Restart | istio-refs/istio-refs/pkg/envoy/agent.go:124-161 | Restart with its waiting, whatever the other goroutines do meanwhile: it performs a legal run; when it has finished, a changed config is current, has the next epoch, and has been launched exactly once, after the end of a wait if any epoch was active at its registration; an unchanged one is not launched. Progress: once abortAll no longer takes or holds the mutex, only the wait of a changed config with an epoch active at its registration can keep it from finishing, and no answer that the proxy is live and no timeout of the wait goes unheeded; if the mutex is free from the start these are the turns 2, 5, 8, ... and 3, 6, 9, ... |
| Agent.Agent.WaitUntilLive | istio-refs/istio-refs/pkg/envoy/agent.go:164-201 | The loop returns exactly when it is told to: only after a step at which the previous epoch was seen inactive, the proxy was live, or the timer fired, and otherwise only when the script is used up; with the mutex free, at the first turn whose question finds the proxy live or whose select finds the time over, and at once if the epoch is gone. It launches nothing. |
| Agent.Agent.AbortAll | istio-refs/istio-refs/pkg/envoy/agent.go:266-274 | The loop over the active epochs terminates without ever blocking on a full channel, and sends exactly one message to every active epoch and none to any other. |
| Agent.Agent.Run | istio-refs/istio-refs/pkg/envoy/agent.go:210-256 | The select loop, whatever the other goroutines do: it performs a legal run, returns through "no more active epochs" only when every registered epoch has exited and no Restart is under way, and through ctx.Done only after one abort message to each active epoch. While it has not returned, no turn took the branch of ctx.Done, and every status it was given has been received. |
| Multicluster.ReconciledIsTarget | istio-refs/istio-refs/istioctl/pkg/multicluster/apply.go:80-181 | Where the calls concerning a cluster succeed and its secrets are prefixed, its labelled secrets become exactly those of its partners, others' failed secret creations notwithstanding. |
| Multicluster.TargetExact | istio-refs/istio-refs/istioctl/pkg/multicluster/apply.go:118-164 | The target holds the secret of R at L if and only if L and R differ, both have an installed and join-enabled context, and R has a secret. |
| Multicluster.ReconciledIdempotent | istio-refs/istio-refs/istioctl/pkg/multicluster/apply.go:80-181 | Applying again under the same failures changes no secret, in names, contents, annotations and labels, if no cluster that is no partner had two labelled secrets. |
| Multicluster.PanicsNoMore | istio-refs/istio-refs/istioctl/pkg/multicluster/apply.go:80-181 | A second apply panics on no pair on which the first did not. |
| Multicluster.IdempotentExactly | istio-refs/istio-refs/istioctl/pkg/multicluster/apply.go:80-181 | Where left-over secrets can be deleted, applying again changes nothing if and only if there were no two labelled secrets for one cluster that is no partner. |
| Multicluster.DepartedTwice | istio-refs/istio-refs/istioctl/pkg/multicluster/cluster.go:135-138 | A mesh in which every call succeeds, and a server with two labelled secrets for a departed cluster: the case that IdempotentExactly singles out. |
| Multicluster.FailedApplyKeepsOldSecret | istio-refs/istio-refs/istioctl/pkg/multicluster/apply.go:158-161 | A failed applySecret leaves that pair's old secret as it was, and it is not pruned. |
| Multicluster.ContentsAreCurrentExactly | istio-refs/istio-refs/istioctl/pkg/multicluster/apply.go:37-45 | The kubeconfig on the server is the current one after apply if and only if apply has added the secret or it was the current one before: contents are never refreshed. |
| Multicluster.ContentsCanStayOld | istio-refs/istio-refs/istioctl/pkg/multicluster/apply.go:37-45 | A secret with an old kubeconfig that keeps it through an apply in which every call succeeds. |
| Multicluster.OwnExact | istio-refs/istio-refs/istioctl/pkg/multicluster/apply.go:86-114 | A cluster has an own secret exactly if one could be created in one of its installed contexts. |
| Multicluster.LabelledSecretCrashesApply | istio-refs/istio-refs/istioctl/pkg/multicluster/apply.go:47-55 | A mesh in which every call succeeds and every own secret is created, and in which one secret made by hand, with the label and without annotations, makes apply panic. |
| Multicluster.PairKeyInjective | istio-refs/istio-refs/istioctl/pkg/multicluster/apply.go:133-138 | For names without slashes two pairs share a key if and only if they are the same unordered pair. |
| Multicluster.PairKeyCollides | istio-refs/istio-refs/istioctl/pkg/multicluster/apply.go:133-138 | With slashes two different pairs can share a key. |
| Multicluster.ReadRemoteSecrets | istio-refs/istio-refs/istioctl/pkg/multicluster/cluster.go:125-140 | The result maps every cluster to the last secret listed for it. |
| Multicluster.LastForExactly | istio-refs/istio-refs/istioctl/pkg/multicluster/cluster.go:125-140 | A secret is the one indexed for a cluster exactly if it is the last listed one for that cluster. |
| Multicluster.Fleet.ApplySecret | istio-refs/istio-refs/istioctl/pkg/multicluster/apply.go:60-78 | Get, update in place, Update or Create: panics exactly if an existing secret lacks a map that must be written, fails exactly if the call that is needed fails, and otherwise leaves the secret added or updated; no other secret changes. |
| Multicluster.Fleet.Prepare | istio-refs/istio-refs/istioctl/pkg/multicluster/apply.go:86-114 | The own secrets are those of the installed contexts whose creation succeeded, the last one for each cluster, each with an index of the secrets its server lists; an error is remembered exactly if a creation failed. |
| Multicluster.Fleet.JoinPair | istio-refs/istio-refs/istioctl/pkg/multicluster/apply.go:141-162 | Both directions of a pair are applied and removed from the secrets to prune, unless a call panics. |
| Multicluster.Fleet.JoinAll | istio-refs/istio-refs/istioctl/pkg/multicluster/apply.go:116-164 | All pairs of different joinable clusters are joined, each direction by exactly one call of applySecret, unless a call panics. |
| Multicluster.Fleet.PruneAll | istio-refs/istio-refs/istioctl/pkg/multicluster/apply.go:166-178 | Exactly the leftover secrets whose deletion succeeds disappear, in any order of the maps; an error is remembered exactly if one fails. |
| Multicluster.Fleet.Apply | istio-refs/istio-refs/istioctl/pkg/multicluster/apply.go:80-181 | Apply panics if and only if, for some pair that is joined, the existing secret lacks a map that must be written, and then nothing has been pruned; otherwise every secret of every cluster ends as its reconciliation, applySecret is called once per ordered pair, and the returned error is exactly a failed creation or deletion. |
| Multicluster.Fleet.ApplyReachesTarget | istio-refs/istio-refs/istioctl/pkg/multicluster/apply.go:80-181 | With prefixed secrets and succeeding calls, after apply every cluster whose own secret was created holds labelled secrets for exactly its partners. |
| Multicluster.Fleet.ApplyTwice | istio-refs/istio-refs/istioctl/pkg/multicluster/apply.go:80-181 | Applied twice, the second call finishes if the first did and leaves all servers as they are, if no cluster that is no partner had two labelled secrets on a server. |
| RemoteSecret.Secret.Update | istio-refs/istio-refs/istioctl/pkg/multicluster/apply.go:37-58 | The in-place update panics if and only if a map that must be written is nil; otherwise it reaches the updated value and reports a change exactly if something but the string data changed. |
| RemoteSecret.Secret.MergeStringData | istio-refs/istio-refs/istioctl/pkg/multicluster/apply.go:39-45 | The loop over the string data, in any order, writes exactly the differing values, and panics exactly if there is one and the data map is nil. |
| RemoteSecret.UpdatedExact | istio-refs/istio-refs/istioctl/pkg/multicluster/apply.go:37-58 | Key by key: string data, context annotation and label are as wanted, everything else is as before. |
| RemoteSecret.UpdatedTwice | istio-refs/istio-refs/istioctl/pkg/multicluster/apply.go:64-68 | A second update can be done and finds nothing to change, so nothing is sent to the server. |
| RemoteSecret.LabelledSecretCanPanic | istio-refs/istio-refs/istioctl/pkg/multicluster/apply.go:47-50 | A concrete secret on which the update panics. |
| Options.NewOptions | istio-refs/istio-refs/pkg/envoy/options.go:124-172 | Succeeds exactly if every value stands directly behind a flag; printing the result gives the trimmed arguments without blank ones, and with no blank ones all of them. |
| Options.ParseSucceedsExactly | istio-refs/istio-refs/pkg/envoy/options.go:129-158 | The parser fails exactly on a value without a flag in front. |
| Options.PrintArgs | istio-refs/istio-refs/pkg/envoy/options.go:63-77 | The printing loop yields the arguments of all named options in order. |
| Options.ParsePrints | istio-refs/istio-refs/pkg/envoy/options.go:124-172 | Print after parse: the arguments without blank ones. |
| Options.PrintParses | istio-refs/istio-refs/pkg/envoy/options.go:63-77 | Parse after print: the options, when names are flags and values are not. |
| Options.PrintedOptionsParseExactly | istio-refs/istio-refs/pkg/envoy/options.go:63-77 | Parse after print returns the options if and only if every name is a trimmed flag and every value is trimmed and no flag. |
| Options.ParseComponentLogLevels | istio-refs/istio-refs/pkg/envoy/options.go:231-247 | The loop yields the well-formed name:level parts, in order. |
| Options.LevelsRoundTripExactly | istio-refs/istio-refs/pkg/envoy/options.go:266-272 | Parsing a printed component log level list returns it if and only if no name or level contains a comma or colon; the empty list included. |
| Strings.ParseFormat | istio-refs/istio-refs/pkg/envoy/options.go:517-535 | A number survives decimal formatting and parsing exactly if it fits the bit size. |
| Strings.ParseUintExactly | istio-refs/istio-refs/pkg/envoy/options.go:532-537 | A string is read as n exactly if n is below the limit and the string is its decimal form behind any number of zeros. |
| Strings.TrimExactly | istio-refs/istio-refs/pkg/envoy/options.go:128 | The trimmed string is the input without leading and trailing space. |
| OptionContext.CheckDuplicates | istio-refs/istio-refs/pkg/envoy/options.go:111-120 | No duplicate is reported exactly if all flag names differ; a reported name does occur twice. |
| OptionContext.Validate | istio-refs/istio-refs/pkg/envoy/options.go:85-108 | Succeeds exactly on valid lists (no duplicates, a config path or YAML, an existing path, valid values); the filled-in context is the order-independent meaning of the list. |
| OptionContext.ValidExactly | istio-refs/istio-refs/pkg/envoy/options.go:85-108 | A list is valid if and only if its flags differ, some option gives a nonempty config path or YAML, a nonempty config path exists, and every value is legal for its flag. |
| OptionContext.NumericValues | istio-refs/istio-refs/pkg/envoy/options.go:412-606 | A numeric flag takes exactly the decimal forms, zeros in front allowed, of the numbers of its bit size: 64 for base ID and concurrency, 32 for the epoch and the two durations. |
| OptionContext.ComponentLevelValues | istio-refs/istio-refs/pkg/envoy/options.go:274-292 | A printed list of component log levels is legal if and only if every component has a name and a known level. |
| OptionContext.NamedValues | istio-refs/istio-refs/pkg/envoy/options.go:196-218 | The six log levels, the two IP versions, the two forms of a boolean flag, and nothing else; any other flag takes any value. |
| OptionContext.ValueOfExact | istio-refs/istio-refs/pkg/envoy/options.go:95-98 | In a duplicate-free list the value found for a flag is the one given for it, wherever it stands. |
| OptionContext.ContextIgnoresOrder | istio-refs/istio-refs/pkg/envoy/options.go:95-98 | Reordering a duplicate-free list changes neither its context nor its validity. |
| Instances.RestartKeepsContext | istio-refs/istio-refs/pkg/envoy/instance.go:279-289 | One hot restart keeps a valid list valid and its meaning but for the epoch, and keeps the other options in order. |
| Instances.ChainExact | istio-refs/istio-refs/pkg/envoy/instance.go:259-299 | After k hot restarts: still valid and duplicate-free, the other options unchanged and in order, base ID, config path and YAML unchanged, epoch base + k modulo 2^32. |
| Instances.ChainArgs | istio-refs/istio-refs/pkg/envoy/instance.go:171 | The command line of the k-th restart is that of the other options followed by the epoch. |
| Instances.New | istio-refs/istio-refs/pkg/envoy/instance.go:144-188 | Succeeds exactly with a binary, valid options and an admin port; the instance carries the meaning and the printed arguments of the options, and the port given or, if that is zero, the port of the bootstrap. |
| Instances.DropEpoch | istio-refs/istio-refs/pkg/envoy/instance.go:280-286 | The copying loop keeps every option but the epoch, in order. |
| Instances.Instance.NewInstanceForHotRestart | istio-refs/istio-refs/pkg/envoy/instance.go:259-299 | Error on the second call; the instance itself before it was started; otherwise the instance of the restart's options, remembered if it could be made. |
| Instances.HotRestarts | istio-refs/istio-refs/pkg/envoy/instance.go:259-299 | Start and hot restart, k times: never fails on an unchanged host, and ends with the options, arguments, epoch and base ID of the chain and an unchanged admin port. |
| Queue.RunsKeep | istio-refs/istio-refs/pkg/queue/instance.go:52-92 | In every interleaving: tasks start in the order of acceptance; submitted = completed + queued + in work + awaiting retry + dropped, as multisets; every start is accounted for; Run waits only while the queue is empty and returns only with closing set and the queue empty. |
| Queue.ReturnedExactly | istio-refs/istio-refs/pkg/queue/instance.go:75-79 | When Run has returned, exactly the accepted tasks were started, in order, and every submitted task is completed, awaiting a retry or dropped. |
| Queue.ReturnIsFinal | istio-refs/istio-refs/pkg/queue/instance.go:61-92 | After the return nothing is accepted or started in any continuation. |
| Queue.StopCanBlock | istio-refs/istio-refs/pkg/queue/instance.go:62-67 | A concrete run in which Run stays in its wait although closing is set and the queue is empty. |
| Queue.BlockedExactly | istio-refs/istio-refs/pkg/queue/instance.go:62-73 | After a stop Run is blocked if and only if it was waiting and nothing has been pushed since. |
| Queue.Queue.Run | istio-refs/istio-refs/pkg/queue/instance.go:61-92 | The loops of Run, whatever clients, timers and the stop goroutine do meanwhile: it performs a legal run, and when it returns, closing is set, the queue is empty, exactly the accepted tasks were started in order, and every submitted task is completed, awaiting its retry or dropped. Progress: until it returns it goes on to the end of the script, failed tasks or not, so two turns per accepted task and one more without new tasks are enough to start every accepted task. |
| Queue.Queue.AwaitWork | istio-refs/istio-refs/pkg/queue/instance.go:70-73 | The wait ends exactly with closing set or a task in the queue; otherwise Run is still waiting when the script is used up. |
| Watcher.ArmedExactly | istio-refs/istio-refs/pkg/envoy/watcher.go:84-98 | In every run a timer is armed exactly when an event has arrived since the last notification, so every event is followed by a notification unless the context ends first. |
| Watcher.DeadlineIsOfFirstEvent | istio-refs/istio-refs/pkg/envoy/watcher.go:86-93 | An armed timer's deadline is minDelay after the first event since the last notification. |
| Watcher.NotificationsAreSpaced | istio-refs/istio-refs/pkg/envoy/watcher.go:75-79 | Successive notifications are at least minDelay apart in every run. |
| Watcher.WatchFileEvents | istio-refs/istio-refs/pkg/envoy/watcher.go:79-107 | The loop notifies exactly at the steps where its timer fires, spaced by minDelay, and returns with a timer armed exactly if an event was left without notification. |
| Uninject.RemoveFirstExact | istio-refs/istio-refs/istioctl/cmd/kubeuninject.go:101-114 | One item of the name goes if there is any; all others stay in order. |
| Uninject.RemoveFirstIsFilter | istio-refs/istio-refs/istioctl/cmd/kubeuninject.go:101-114 | Removing the first is removing all exactly if the name occurs at most once. |
| Uninject.RemoveInjected | istio-refs/istio-refs/istioctl/cmd/kubeuninject.go:101-131 | The slice surgery at the found index removes the first item of the name. |
| Uninject.PodDNSConfig.RemoveGlobal | istio-refs/istio-refs/istioctl/cmd/kubeuninject.go:133-157 | The delete-and-restart loop terminates and leaves the order-preserving filter of the entries without "global". |
| Uninject.LocalSearchesRemove | istio-refs/istio-refs/istioctl/cmd/kubeuninject.go:142-151 | Deleting one matching entry does not change the filter. |
| Uninject.AllLocal | istio-refs/istio-refs/istioctl/cmd/kubeuninject.go:140-155 | A list equals its filter exactly if no entry contains "global". |
| Uninject.HandleAnnotations | istio-refs/istio-refs/istioctl/cmd/kubeuninject.go:161-174 | All annotations with the sidecar prefix anywhere in their key go, the injection policy is set to false, the others stay; nil gives a new map. |
| Uninject.PodTemplate.Extract | istio-refs/istio-refs/istioctl/cmd/kubeuninject.go:237-256 | The in-place rewriting gives exactly the uninjected template; without a proxy container only the annotations change. |
| Uninject.UninjectedTwiceExactly | istio-refs/istio-refs/istioctl/cmd/kubeuninject.go:237-256 | Uninjecting twice is uninjecting once if and only if there was at most one proxy container. |
| Uninject.UninjectedExactly | istio-refs/istio-refs/istioctl/cmd/kubeuninject.go:249-254 | With the injector's names used at most once: if there is a proxy container, nothing of the sidecar is left (containers, volumes, annotations, search domains) and everything else stays, lists in order; if there is none, only the annotations change. |
| Uninject.AnnotationsExactly | istio-refs/istio-refs/istioctl/cmd/kubeuninject.go:161-174 | Key by key: the policy is false, the sidecar's other annotations are gone, all others stay. |
| Stats.TotalsBalance | istio-refs/istio-refs/galley/tools/mcpc/main.go:207-227 | After any changes: adds minus deletes is the number of resources, adds + readds + updates is the sum of the distinct names, applies is the number of changes. |
| Stats.LatestExactly | istio-refs/istio-refs/galley/tools/mcpc/main.go:201-205 | The map built from a change holds exactly the names of its objects, each with the last object of that name. |
| Stats.SizesAdd | istio-refs/istio-refs/galley/tools/mcpc/main.go:207-227 | One change: the sizes of the four classes of names add up. |
| Stats.Stat.AddAll | istio-refs/istio-refs/galley/tools/mcpc/main.go:207-219 | The first loop counts every name once, in any order of the map. |
| Stats.Stat.DeleteAll | istio-refs/istio-refs/galley/tools/mcpc/main.go:221-227 | The second loop removes and counts exactly the names that are gone, in any order. |
| Stats.Stat.Apply | istio-refs/istio-refs/galley/tools/mcpc/main.go:198-227 | The resources become the change's map, the counters advance by the four classes. |
| Stats.Updater.PrintStats | istio-refs/istio-refs/galley/tools/mcpc/main.go:189-199 | An unknown collection changes nothing; a known one changes only its own statistics and the total. |
| Stats.Feed | istio-refs/istio-refs/galley/tools/mcpc/main.go:189-227 | A statistics object fed with any changes holds their resources and totals, and adds minus deletes equals the number of resources. |

## Left out

- rpc.Status: not part of this model; `CsrResponse` takes a codec for it and a predicate for the values its marshaller refuses, and `CsrResponse.Copy` assumes that it decodes what it encodes.
- CaService.CsrResponse.MarshalToSizedBuffer: promises nothing about the front of the buffer when the nested marshaller refuses, because that depends on rpc.Status.
- workload_service.pb.go, gRPC stubs, descriptors, String, GoString, getters and soz: the same codec again, or no algorithm.
- The deterministic marshalling branch of the XXX_ methods: reflection of the protobuf library.
- Reuse of the old backing array by `append(m.CsrPem[:0], ...)`: bytes fields are values, so aliasing between old and new contents is not captured.
- The reading loop repeated inline at every field of the source is one method, Buffers.DecodeVarint, at 32 or 64 bits.
- Input of Unmarshal as an array: decoding never writes to its input, so it is a sequence.
- Agent: reflect.DeepEqual is equality of configs; real time, draining, the exit errors and their log lines are left out, a ticker or timer step may happen at any moment of the wait.
- Agent channels: the status channel is a rendezvous step, an abort channel the number of messages in it; one control loop is running. Scripts of the other goroutines' steps are finite, so the loops may end in the middle of a wait; the contracts say what holds then.
- Instances: process start, waiting for liveness and for the exit, and deletion of shared memory are operating system behaviour.
- Looking up a bootstrap's admin port and the existence of files: parameters of the model.
- Options whose constructor computes a value (durations, concurrency) are pairs of flag name and value here.
- Multicluster: creating a kubeconfig, polling with retries and the API client; each call succeeds or fails as a parameter says.
- Multicluster.Fleet.Apply: requires cluster names without slashes; they are UIDs, so slashes do not occur, and PairKeyCollides shows what one could do. Contexts of one cluster share its namespace here, and every list of a server's secrets during one apply comes in the same order.
- Multicluster.Fleet.ApplySecret: the secrets apply sends carry no string data, so the server's merging of string data into data is not modelled; whether a call of the API server fails does not depend on what it is asked to write.
- Queue: one call of Run; the delay before a retry is abstract, a timer may fire at any time after the failure.
- Watcher: the clock is abstract and notifyFn takes no time of its own; certificate hashing and directory watching are left out.
- Uninject: YAML and JSON conversion, finding the pod template by reflection, lists of objects; sharing of a slice's backing array with the caller's copy.
- Stats: the counters are unbounded, printing is left out.
- mixer/template/template.gen.go and all commands, clients and file access: no algorithm that is not covered above.
