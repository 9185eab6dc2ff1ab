# ksmbd front door: SMB1 request validation and dialect negotiation

This project is a Dafny model of the first code a ksmbd request passes
through. It covers two source files:

- `smb1misc.c`: the SMB1 request validator. It has a header guard, a
  word-count rule per command, a byte-count rule per command, a size
  calculator and a data-region extractor. The orchestrator
  (`smb1_check_message`) runs these in order. It rejects a request at the
  first gate that fails, except that a size mismatch on WRITE_ANDX is
  accepted.
- `smb_common.c`: the shared front door. It holds:
  - the RFC 1002 frame classifier (`is_smb_request`);
  - the dispatcher that routes on the protocol signature (`check_message`);
  - the SMB1 and SMB2 dialect tables and their configured range;
  - the dialect lookup by short name (`get_protocol_idx`);
  - the two dialect negotiators (`cifsd_lookup_smb1_dialect`,
    `cifsd_lookup_smb2_dialect`) and the router that picks one
    (`negotiate_dialect`).

The modules are:

- `SmbTypes` (`smb_types.dfy`): fixed-width integers, `Option`, errno
  values and the two protocol signatures.
- `Smb1Misc` (`smb1_misc.dfy`): the validator. A request is the record of
  header fields it reads, already decoded from little-endian. The
  validator's answer is a `Verdict`: `Accept`, or `Reject` with the cause
  the C code logs. In C every rejection returns the same value, 1.
- `SmbCommon` (`smb_common.dfy`): the tables, the lookups and the
  negotiators. The loops of the lookups and negotiators are methods with
  loop invariants. Each is proved equal to a specification function, and
  the lemmas state their properties about that function.

Modelling choices:

- Names are compared as prefixes, as the code compares them with
  `strncmp(s, t, strlen(s))`: a string matches a name when it is a prefix
  of the name, not only when the two are equal. So an empty client dialect
  string matches every entry.
- The build switch `CONFIG_CIFS_SMB1_SERVER` is the boolean `smb1Server`.
- The global `server_conf` is passed as a `ProtocolRange`.
- Whether `char` is signed is the boolean `charIsSigned`. With a signed
  `char`, the keep-alive byte 0x85 reads as a negative number and lands
  in the `default` branch. Only the log line changes; the answer is the
  same (`IsSmbRequest`).
- The dialect indices (`CIFSD_SMB1_PROT` = 0, … , `CIFSD_SMB311_PROT` = 6)
  and the dialect ids come from `smb_common.h`, which is not part of this
  model. The values used are the ones that header defines: indices 0 to 6
  in table order, and the ids as that header defines them: 0x0000 for
  SMB1, the dialect revisions 0x0202, 0x0210, 0x0300, 0x0302 and 0x0311
  of section 2.2.3 of [MS-SMB2], and 0x02FF, the wildcard revision of the
  NEGOTIATE response (section 2.2.4 of [MS-SMB2]).
- The command codes come from `smb1pdu.h`, which is not part of this
  model. The values used are those of section 2.2.2.1 of [MS-CIFS].
- For each bug under "## Findings" the model has the code as written and
  a corrected member, and the callers use the corrected one. So
  `CheckMessage` calls the corrected SMB1 validator and `NegotiateDialect`
  the index-keyed SMB2 negotiator; on the inputs listed there they answer
  differently from the C code. `CheckMessageAsWritten` is the dispatcher
  as written.
- `sizeof(struct smb_hdr)` is 37: the 4-byte transport length, the 32-byte
  header and the WordCount byte.

## Model

| member | source | states |
|---|---|---|
| Smb1Misc.CheckSmb1Hdr | smb1misc.c:23-40 | 0 exactly when the signature is SMB1 and the response bit of Flags is clear; 1 otherwise |
| Smb1Misc.Smb1ReqStructSize | smb1misc.c:43-119 | the result is the word count, -EINVAL or -EOPNOTSUPP; -EOPNOTSUPP exactly for a command outside the 27-command table; the word count exactly when the command's rule admits it |
| Smb1Misc.WordCountAlternatives | smb1misc.c:89-113 | READ_ANDX admits exactly 0xa or 0xc words, WRITE_ANDX exactly 0xc or 0xe, TRANSACTION any count of at least 0xe |
| Smb1Misc.Smb1GetByteCount | smb1misc.c:121-183 | the result is the byte count unchanged, or -EINVAL; the byte count exactly when the command's byte rule admits it (commands without a rule pass) |
| Smb1Misc.ByteCountRequirements | smb1misc.c:128-172 | for each group of commands, the iff between passing and its bound: exactly 0, at least 1, 2, 3 or 4 |
| Smb1Misc.ZeroMinimumNeverRejects | smb1misc.c:140-147 | the five `bc < 0` commands pass with every byte count, since the count is unsigned |
| Smb1Misc.NtCreateUnicodeMinimum | smb1misc.c:173-179 | NT_CREATE_ANDX needs at least 3 bytes with SMBFLG2_UNICODE and 2 without; a count of 2 fails once the flag is set and passes once it is cleared |
| Smb1Misc.TablesCoverSameCommands | smb1misc.c:47-116 | a command has a word-count rule exactly when it has a byte-count rule |
| Smb1Misc.Smb1CalcSize | smb1misc.c:185-200 | for an admitted byte count, the header, WordCount byte, parameter words, byte-count field and bytes (and, with the 4-byte transport length, the end of the byte area); otherwise -EINVAL as an unsigned int |
| Smb1Misc.CalcSizeRange | smb1misc.c:185-200 | an admitted size is between 35 and 35 + 2*255 + 65535, so it fits 24 bits; the error value does not fit |
| Smb1Misc.Smb1GetDataLen | smb1misc.c:202-236 | the data-region end reduced modulo 2^32; exact for every command but WRITE_ANDX; when it differs from the true end, the command is WRITE_ANDX and the figure is the true end minus 2^32, below 2^16 |
| Smb1Misc.DataRegionOnlyForDataCommands | smb1misc.c:207-233 | only WRITE_ANDX, TRANSACTION and TRANSACTION2 have a nonzero data-region end; for WRITE_ANDX it is DataOffset + (High << 16 \| Low); every end stays below 2^32 + 2^16 |
| Smb1Misc.Smb1CheckMessage | smb1misc.c:238-283 | each verdict exactly characterised, in gate order: BadHeader exactly when the header guard fails; UnsupportedCommand exactly when the header passes and the command is outside the table; WordCountMismatch exactly when the command is in the table and its word-count rule fails; DataAreaOverrun exactly when the word count passes and the unwrapped data-region end exceeds the envelope length; LengthMismatch exactly when that gate passes, the command is not WRITE_ANDX and the length differs from the calculated size; Accept in every remaining case |
| Smb1Misc.Smb1CheckMessageAsWritten | smb1misc.c:238-283 | the gates with the wrapped 32-bit data length: DataAreaOverrun exactly when the header and word count pass and the wrapped figure exceeds the envelope length; agrees with the corrected check whenever the data-region end is below 2^32; Accept exactly when the header and word count pass, the wrapped figure fits the envelope length, and the command is WRITE_ANDX or the length equals the calculated size |
| Smb1Misc.Smb1AcceptIff | smb1misc.c:238-283 | for a 24-bit envelope length, accepted exactly when well formed: SMB1 signature, request direction, admitted word count, data region within the length, and (except for WRITE_ANDX) admitted byte count and a length equal to the message layout |
| Smb1Misc.EarlyRejectIgnoresLaterFields | smb1misc.c:247-265 | once the header, command or word-count gate rejects, changing the fields only later gates read leaves the verdict unchanged; once the data-area gate rejects, the byte count and Flags2 (read only by the size calculator) do not matter |
| Smb1Misc.WriteAndxCarveOut | smb1misc.c:267-274 | a WRITE_ANDX that passes the header, word-count and data-area gates is accepted whatever its byte count and length |
| Smb1Misc.CarveOutOnlyForWriteAndx | smb1misc.c:260-280 | an accepted request other than WRITE_ANDX has an admitted byte count and a length equal to the calculated size; every accepted request keeps its data region inside the length |
| Smb1Misc.Smb1CheckMessageExamples | smb1misc.c:238-283 | CLOSE with 3 words, 0 bytes and length 41 is accepted; with 2 words it is rejected for its word count; command 0xFF is unsupported |
| Smb1Misc.WrappedWriteLengthSlipsThrough | smb1misc.c:212-214 | for a WRITE_ANDX whose data region ends at 2^32, the wrapped length is 0 and the as-written check accepts it at any envelope length, while the corrected check rejects it as a data-area overrun |
| Smb1Misc.WrappedEndAcceptedAsWritten | smb1misc.c:212-214 | whenever the header and word-count gates pass and the data region ends at or beyond 2^32, the command is WRITE_ANDX, the corrected check rejects it as a data-area overrun, and the check as written accepts it exactly when the end minus 2^32 fits the envelope length |
| SmbCommon.Smb1Protos | smb_common.c:19-35 | one entry with the SMB1 index in either build |
| SmbCommon.Smb2TableShape | smb_common.c:37-74 | six entries, indices strictly increasing (1 to 6), ids distinct and never the sentinel |
| SmbCommon.MinProtocol | smb_common.c:76-83 | no SMB2 index lies below it; it is the SMB1 index when SMB1 is built in and an SMB2 index otherwise |
| SmbCommon.MaxProtocol | smb_common.c:85-88 | no SMB2 index lies above it, and it is one of them |
| SmbCommon.DefaultRangeSupportsEveryDialect | smb_common.c:165-169 | the default range admits every SMB2 index, and admits the SMB1 index exactly when SMB1 is built in |
| SmbCommon.SupportedProtocol | smb_common.c:165-169 | true for min ≤ idx ≤ max, both ends included; an index is supported only when the range is nonempty |
| SmbCommon.SupportedProtocolInterval | smb_common.c:165-169 | the supported indices form an interval: every index between two supported ones is supported, both ends of a nonempty range are supported, and the indices just below min and just above max are not |
| SmbCommon.HighestPrefixMatch | smb_common.c:90-103 | the highest position at or below `offt` whose short name starts with the string, with no match above it; or -1 when none matches |
| SmbCommon.LookupProtoIdx | smb_common.c:90-103 | the loop returns the index of the highest matching entry, or -1 |
| SmbCommon.ProtocolIdx | smb_common.c:105-118 | the intended get_protocol_idx: -1 exactly when no entry of either table matches; otherwise the index of a matching entry |
| SmbCommon.GetProtocolIdx | smb_common.c:105-118 | the SMB2 lookup, then the SMB1 lookup on -1, returns ProtocolIdx |
| SmbCommon.GetProtocolIdxAsWritten | smb_common.c:109-117 | as written, the answer is always the SMB2 lookup's: the SMB1 fallback is never taken |
| SmbCommon.Nt1UnknownAsWritten | smb_common.c:112 | "NT1" gives -1 as written, while the intended lookup gives the SMB1 index |
| SmbCommon.IsSmbRequest | smb_common.c:147-163 | true exactly when the type byte is a session message; a keep-alive is not a request, whether `char` is signed or not |
| SmbCommon.CheckMessage | smb_common.c:128-138 | an SMB2 signature passes the SMB2 checker's result through; any other buffer gets 0 or 1, and 0 exactly when the corrected SMB1 validator accepts |
| SmbCommon.CheckMessageAsWritten | smb_common.c:128-138 | the dispatcher as written: the SMB2 result passes through; any other buffer gets 0 exactly when the as-written SMB1 validator accepts; it agrees with CheckMessage whenever the data-region end is below 2^32 |
| SmbCommon.DispatcherOnlyRoutes | smb_common.c:128-138 | a buffer with neither signature is rejected by the SMB1 header guard; with the corrected validator, an SMB1 buffer gets 0 exactly when it is well formed |
| SmbCommon.DispatcherPassesWrappedWrite | smb_common.c:137 | the WRITE_ANDX request whose data region ends at 2^32 gets 0 from the dispatcher as written and 1 from the corrected one |
| SmbCommon.Smb2PickSpec | smb_common.c:216-233 | the sentinel exactly when no table position below k qualifies; otherwise the id of the highest qualifying position |
| SmbCommon.Smb2Dialect | smb_common.c:211-234 | a selected id is one the client offered, whose entry index lies in the range; an empty offer selects nothing |
| SmbCommon.Smb2DialectAsWritten | smb_common.c:225 | a selected id is one the client offered, whose table position lies in the range |
| SmbCommon.Smb2PrefersNewest | smb_common.c:216-229 | when two dialects both qualify, the older one is never chosen and some dialect is |
| SmbCommon.PositionKeyShiftsRange | smb_common.c:225 | with range [SMB2_PROT, SMB2_PROT], offer {0x0202, 0x0210} selects 0x0210 as written and 0x0202 as intended; with range [SMB2_PROT, SMB302_PROT], offer {0x0311} selects 0x0311 as written and nothing as intended |
| SmbCommon.LookupSmb2Dialect | smb_common.c:211-234 | the nested scan, newest entry first and client list from the back, returns the corrected, index-keyed Smb2Dialect of the first `dialectsCount` ids |
| SmbCommon.StrLen | smb_common.c:183 | the position of the first NUL: a NUL there and none before |
| SmbCommon.DialectsHaveNoNul | smb_common.c:182-199 | no string cut from a well-formed dialect area contains a NUL |
| SmbCommon.DialectsJoinRoundTrip | smb_common.c:182-199 | cutting a well-formed area into strings and writing each back with its NUL gives the area back |
| SmbCommon.JoinDialectsRoundTrip | smb_common.c:182-199 | strings without NULs, written with their terminators, form a well-formed area that cuts back into the same strings |
| SmbCommon.FirstPrefixMatch | smb_common.c:182-199 | the first client string that is a prefix of the name, with none before it; or -1 when none is |
| SmbCommon.WalkMatchFindsFirst | smb_common.c:182-199 | the walk that steps over each string and its NUL stops at the first string that is a prefix of the entry's name, counting from its start position, and gives -1 when the area runs out |
| SmbCommon.Smb1Dialect | smb_common.c:171-209 | the answer is the sentinel or the position of a client string that starts "\2NT LM 0.12"; it is a position only when SMB1 is built in and its index is in range; it is one whenever the client offers that dialect exactly |
| SmbCommon.LookupSmb1Dialect | smb_common.c:171-209 | both builds: the walk over the client's strings, bounded by the byte count, returns Smb1Dialect of the strings in the area |
| SmbCommon.NegotiateDialect | smb_common.c:242-262 | an SMB1 signature answers with Smb1Dialect of the dialect area, an SMB2 signature with the corrected, index-keyed Smb2Dialect of the first DialectCount ids, and any other signature with the sentinel |

## Left out

- Logging (`cifsd_debug`, `cifsd_err`) is left out. It changes no result.
- `smb2_check_message` is not part of this model. `CheckMessage` takes its
  result as the parameter `smb2Rc`.
- `get_rfc1002_length` is not part of this model. The envelope length is
  the parameter `len`. The lemmas that relate acceptance to well-formedness
  assume it is below 2^24, as the 24-bit RFC 1002 length field guarantees.
- The validator reads decoded fields, not raw bytes. Little-endian
  decoding and the overlay of the WRITE_ANDX and transaction structures on
  the buffer are left out; each field the validator reads is a field of
  `Smb1Request`.
- `smb_negotiate_request` (smb1misc.c:285-288) calls
  `cifsd_smb_negotiate_common`, which is not part of this model.
- Smb1Misc.Smb1GetDataLen: `DataLengthHigh << 16` overflows a signed
  `int` for high halves of 0x8000 and above, which C leaves undefined. The
  model takes the usual two's-complement wrap. The sum then reaches the
  comparison as an `unsigned int`, so the model reduces it modulo 2^32.
- SmbCommon.LookupSmb1Dialect: requires the first ByteCount characters of
  the dialect area to be empty or to end with a NUL. The C loop has no
  such check, and on a malformed area it reads past its strings or past
  the counted bytes; that behaviour is not modelled.
- SmbCommon.LookupSmb1Dialect: the branch that returns an entry's
  `prot_id` (smb_common.c:193) needs an entry other than the SMB1 one. The
  one-entry table has none, so the model treats the branch as unreachable.
- SmbCommon.NegotiateDialect: requires the negotiator's input to lie
  inside the request (`NegotiateBufferOk`). The C code trusts the counts.
- SmbCommon.LookupSmb2Dialect: requires `dialectsCount` ids to be present.
  The C code reads them from the buffer unchecked.
- SmbCommon.IsSmbRequest: requires a nonempty buffer. The C code always
  reads the first byte.

## Findings

| source | as written | input that shows it | evidently intended | confidence | as-written member | corrected member |
|---|---|---|---|---|---|---|
| smb1misc.c:212-214, 261 | the WRITE_ANDX data length is summed in a 32-bit `int` and compared with the envelope length as `unsigned int`, so it wraps | WRITE_ANDX, 12 words, DataOffset 1, DataLengthLow 0xFFFF, DataLengthHigh 0xFFFF: the sum 2^32 wraps to 0, the data-area gate passes and the carve-out accepts at any length | compare the unwrapped end of the data region with the envelope length | high; not executed | Smb1Misc.Smb1CheckMessageAsWritten, Smb1Misc.WrappedWriteLengthSlipsThrough, Smb1Misc.WrappedEndAcceptedAsWritten, SmbCommon.CheckMessageAsWritten, SmbCommon.DispatcherPassesWrappedWrite | Smb1Misc.Smb1CheckMessage, Smb1Misc.Smb1AcceptIff, SmbCommon.CheckMessage, SmbCommon.DispatcherOnlyRoutes |
| smb_common.c:225 | `supported_protocol(i)` is given the table position `i`, not the entry's index | range [SMB2_PROT, SMB2_PROT], client offers 0x0202 and 0x0210: SMB 2.1 (0x0210) is selected, one dialect above the range | `supported_protocol(smb2_protos[i].index)` | medium (rests on the index values of smb_common.h); not executed | SmbCommon.Smb2DialectAsWritten, SmbCommon.PositionKeyShiftsRange | SmbCommon.Smb2Dialect, SmbCommon.LookupSmb2Dialect, SmbCommon.NegotiateDialect |
| smb_common.c:112 | the SMB2 result is compared with `-EINVAL`, but `__lookup_proto_idx` reports a miss as -1, so the SMB1 table is never consulted | short name "NT1" with SMB1 built in: the answer is -1 instead of the SMB1 index | fall back to the SMB1 table when the SMB2 lookup returns -1 | high; not executed | SmbCommon.GetProtocolIdxAsWritten, SmbCommon.Nt1UnknownAsWritten | SmbCommon.ProtocolIdx, SmbCommon.GetProtocolIdx |
