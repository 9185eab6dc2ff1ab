/**
  The front door shared by both protocol families: the RFC 1002 frame
  classifier, the dispatcher that routes on the protocol signature, the two
  constant dialect tables with their configured range, the dialect-name
  lookup and the two dialect negotiators.
 */
module SmbCommon {
  import opened SmbTypes
  import Smb1Misc

  // Dialect indices, in one ordinal space shared by both tables.
  const CIFSD_SMB1_PROT: int := 0
  const CIFSD_SMB2_PROT: int := 1
  const CIFSD_SMB21_PROT: int := 2
  const CIFSD_SMB2X_PROT: int := 3
  const CIFSD_SMB30_PROT: int := 4
  const CIFSD_SMB302_PROT: int := 5
  const CIFSD_SMB311_PROT: int := 6

  // Dialect ids as smb_common.h defines them, and the "no dialect" sentinel.
  // 0x0202 to 0x0311 are the dialect revisions of section 2.2.3 of [MS-SMB2];
  // 0x0000 stands for SMB1, and 0x02FF is the wildcard revision of the
  // NEGOTIATE response (section 2.2.4 of [MS-SMB2]), not a request dialect.
  const CIFSD_SMB10_PROT_ID: u16 := 0x0000
  const CIFSD_SMB20_PROT_ID: u16 := 0x0202
  const CIFSD_SMB21_PROT_ID: u16 := 0x0210
  const CIFSD_SMB2X_PROT_ID: u16 := 0x02FF
  const CIFSD_SMB30_PROT_ID: u16 := 0x0300
  const CIFSD_SMB302_PROT_ID: u16 := 0x0302
  const CIFSD_SMB311_PROT_ID: u16 := 0x0311
  const CIFSD_BAD_PROT_ID: u16 := 0xFFFF

  /** RFC 1002 section 4.3.1 session packet types. */
  const RFC1002_SESSION_MESSAGE: int := 0x00
  const RFC1002_SESSION_KEEP_ALIVE: int := 0x85

  const NUL: char := 0 as char

  /** The buffer-format byte 0x02 that starts every SMB1 dialect string ([MS-CIFS] section 2.2.4.52.1). */
  const DIALECT_FORMAT: char := 2 as char

  /** The one SMB1 dialect the server speaks. */
  const NT_LM_DIALECT: string := [DIALECT_FORMAT] + "NT LM 0.12"

  // ---------------------------------------------------------------------
  // Dialect tables

  /** A dialect: its ordinal index, its wire name, its short name and its 16-bit id. */
  datatype SmbProtocol = SmbProtocol(index: int, name: string, prot: string, protId: u16)

  /**
    smb1_protos: the NT LM 0.12 entry when SMB1 is built in, otherwise a
    placeholder with empty names whose id (-1 in a 16-bit slot) is the
    sentinel.
   */
  function Smb1Protos(smb1Server: bool): (t: seq<SmbProtocol>)
    ensures |t| == 1 && t[0].index == CIFSD_SMB1_PROT
  {
    if smb1Server then [SmbProtocol(CIFSD_SMB1_PROT, NT_LM_DIALECT, "NT1", CIFSD_SMB10_PROT_ID)]
    else [SmbProtocol(CIFSD_SMB1_PROT, "", "", CIFSD_BAD_PROT_ID)]
  }

  /** smb2_protos, oldest dialect first. */
  const SMB2_PROTOS: seq<SmbProtocol> := [
    SmbProtocol(CIFSD_SMB2_PROT, [DIALECT_FORMAT] + "SMB 2.002", "SMB2_02", CIFSD_SMB20_PROT_ID),
    SmbProtocol(CIFSD_SMB21_PROT, [DIALECT_FORMAT] + "SMB 2.1", "SMB2_10", CIFSD_SMB21_PROT_ID),
    SmbProtocol(CIFSD_SMB2X_PROT, [DIALECT_FORMAT] + "SMB 2.???", "SMB2_22", CIFSD_SMB2X_PROT_ID),
    SmbProtocol(CIFSD_SMB30_PROT, [DIALECT_FORMAT] + "SMB 3.0", "SMB3_00", CIFSD_SMB30_PROT_ID),
    SmbProtocol(CIFSD_SMB302_PROT, [DIALECT_FORMAT] + "SMB 3.02", "SMB3_02", CIFSD_SMB302_PROT_ID),
    SmbProtocol(CIFSD_SMB311_PROT, [DIALECT_FORMAT] + "SMB 3.1.1", "SMB3_11", CIFSD_SMB311_PROT_ID)
  ]

  /**
    The SMB2 table is ordered from oldest to newest, its ids are distinct
    and none of them is the sentinel.
   */
  lemma Smb2TableShape()
    ensures |SMB2_PROTOS| == 6
    ensures forall i, j :: 0 <= i < j < |SMB2_PROTOS| ==>
              SMB2_PROTOS[i].index < SMB2_PROTOS[j].index && SMB2_PROTOS[i].protId != SMB2_PROTOS[j].protId
    ensures forall i :: 0 <= i < |SMB2_PROTOS| ==> SMB2_PROTOS[i].protId != CIFSD_BAD_PROT_ID
    ensures |SMB2_POSITION_KEYS| == |SMB2_INDEX_KEYS| == |SMB2_PROTOS|
    ensures forall i :: 0 <= i < |SMB2_PROTOS| ==>
              SMB2_POSITION_KEYS[i] == i && SMB2_INDEX_KEYS[i] == SMB2_PROTOS[i].index == i + 1
  {
  }

  /** cifsd_min_protocol: the SMB1 entry's index when SMB1 is built in, else the oldest SMB2 index. */
  function MinProtocol(smb1Server: bool): (r: int)
    ensures forall p :: p in SMB2_PROTOS ==> r <= p.index
    ensures smb1Server ==> r == Smb1Protos(true)[0].index
    ensures !smb1Server ==> r in set p | p in SMB2_PROTOS :: p.index
  {
    if smb1Server then Smb1Protos(true)[0].index else SMB2_PROTOS[0].index
  }

  /** cifsd_max_protocol: the newest SMB2 index. */
  function MaxProtocol(): (r: int)
    ensures forall p :: p in SMB2_PROTOS ==> p.index <= r
    ensures r in set p | p in SMB2_PROTOS :: p.index
  {
    SMB2_PROTOS[|SMB2_PROTOS| - 1].index
  }

  /** The server's configured [min, max] range of dialect indices. */
  datatype ProtocolRange = ProtocolRange(minProtocol: int, maxProtocol: int)

  /** supported_protocol: the index lies inside the configured range, both ends included. */
  predicate SupportedProtocol(conf: ProtocolRange, idx: int)
    ensures SupportedProtocol(conf, idx) ==> conf.minProtocol <= conf.maxProtocol
  {
    conf.minProtocol <= idx && idx <= conf.maxProtocol
  }

  /**
    The supported indices form an interval: between two supported indices
    every index is supported, both ends of the range are supported when it
    is nonempty, and nothing just outside it is.
   */
  lemma SupportedProtocolInterval(conf: ProtocolRange, lo: int, hi: int, idx: int)
    ensures SupportedProtocol(conf, lo) && SupportedProtocol(conf, hi) && lo <= idx <= hi ==> SupportedProtocol(conf, idx)
    ensures conf.minProtocol <= conf.maxProtocol ==>
              SupportedProtocol(conf, conf.minProtocol) && SupportedProtocol(conf, conf.maxProtocol)
    ensures !SupportedProtocol(conf, conf.minProtocol - 1) && !SupportedProtocol(conf, conf.maxProtocol + 1)
  {
  }

  /**
    The default range [cifsd_min_protocol, cifsd_max_protocol] supports every
    dialect of the build, and the SMB1 index only when SMB1 is built in.
   */
  lemma DefaultRangeSupportsEveryDialect(smb1Server: bool)
    ensures var conf := ProtocolRange(MinProtocol(smb1Server), MaxProtocol());
            && (forall p :: p in SMB2_PROTOS ==> SupportedProtocol(conf, p.index))
            && (SupportedProtocol(conf, CIFSD_SMB1_PROT) <==> smb1Server)
  {
  }

  // ---------------------------------------------------------------------
  // Lookup by short name

  /**
    Position of the highest entry at or below `offt` whose short name starts
    with `str` (strncmp over strlen(str) characters), or -1.
   */
  function HighestPrefixMatch(str: string, list: seq<SmbProtocol>, offt: int): (p: int)
    requires -1 <= offt < |list|
    ensures -1 <= p && p <= offt
    ensures p >= 0 ==> str <= list[p].prot && forall k :: p < k <= offt ==> !(str <= list[k].prot)
    ensures p == -1 ==> forall k :: 0 <= k <= offt ==> !(str <= list[k].prot)
    decreases offt + 1
  {
    if offt < 0 then -1
    else if str <= list[offt].prot then offt
    else HighestPrefixMatch(str, list, offt - 1)
  }

  /** What __lookup_proto_idx returns: the index of the highest matching entry, or -1. */
  function ProtoIdx(str: string, list: seq<SmbProtocol>, offt: int): int
    requires -1 <= offt < |list|
  {
    var p := HighestPrefixMatch(str, list, offt);
    if p < 0 then -1 else list[p].index
  }

  /** __lookup_proto_idx: scan from `offt` down to 0 for a short name that starts with `str`. */
  method LookupProtoIdx(str: string, list: seq<SmbProtocol>, offt: int) returns (idx: int)
    requires -1 <= offt < |list|
    ensures idx == ProtoIdx(str, list, offt)
  {
    var o := offt;
    while o >= 0
      invariant -1 <= o <= offt
      invariant HighestPrefixMatch(str, list, o) == HighestPrefixMatch(str, list, offt)
    {
      if str <= list[o].prot {
        return list[o].index;
      }
      o := o - 1;
    }
    return -1;
  }

  /**
    The intended get_protocol_idx: the SMB2 table first, newest entry first,
    then the SMB1 table when the SMB2 table has no match.
   */
  function ProtocolIdx(str: string, smb1Server: bool): (idx: int)
    ensures idx == -1 <==>
              (forall p :: p in SMB2_PROTOS ==> !(str <= p.prot)) && !(str <= Smb1Protos(smb1Server)[0].prot)
    ensures idx != -1 ==> exists p :: p in SMB2_PROTOS + Smb1Protos(smb1Server) && str <= p.prot && idx == p.index
  {
    var idx := ProtoIdx(str, SMB2_PROTOS, |SMB2_PROTOS| - 1);
    if idx != -1 then idx
    else ProtoIdx(str, Smb1Protos(smb1Server), |Smb1Protos(smb1Server)| - 1)
  }

  /** get_protocol_idx, falling back to the SMB1 table when the SMB2 lookup reports -1. */
  method GetProtocolIdx(str: string, smb1Server: bool) returns (idx: int)
    ensures idx == ProtocolIdx(str, smb1Server)
  {
    idx := LookupProtoIdx(str, SMB2_PROTOS, |SMB2_PROTOS| - 1);
    if idx != -1 {
      return idx;
    }
    idx := LookupProtoIdx(str, Smb1Protos(smb1Server), |Smb1Protos(smb1Server)| - 1);
  }

  /**
    get_protocol_idx as written: it tests the SMB2 result against -EINVAL,
    which the lookup never returns, so the SMB2 result is always the answer
    and the branch that would consult smb1_protos cannot be reached.
   */
  function GetProtocolIdxAsWritten(str: string, smb1Server: bool): (idx: int)
    ensures idx == ProtoIdx(str, SMB2_PROTOS, |SMB2_PROTOS| - 1)
  {
    var idx := ProtoIdx(str, SMB2_PROTOS, |SMB2_PROTOS| - 1);
    if idx != -EINVAL then idx
    else assert false; -1
  }

  /** "NT1" names the SMB1 dialect, but as written the lookup reports it unknown. */
  lemma Nt1UnknownAsWritten()
    ensures GetProtocolIdxAsWritten("NT1", true) == -1
    ensures ProtocolIdx("NT1", true) == CIFSD_SMB1_PROT
  {
    assert forall k :: 0 <= k < |SMB2_PROTOS| ==> SMB2_PROTOS[k].prot[0] == 'S';
    assert HighestPrefixMatch("NT1", SMB2_PROTOS, 5) == -1;
    assert HighestPrefixMatch("NT1", Smb1Protos(true), 0) == 0;
  }

  // ---------------------------------------------------------------------
  // Frame classifier and dispatcher

  /** The type byte as `int` after a read through plain `char`, which is signed on some targets. */
  function CharValue(b: u8, charIsSigned: bool): int {
    if charIsSigned && b >= 0x80 then b - 0x100 else b
  }

  /**
    is_smb_request: a session message is an SMB request; a keep-alive or
    any other type is not. Whether `char` is signed changes only which
    diagnostic is logged, not the answer.
   */
  function IsSmbRequest(requestBuf: seq<u8>, charIsSigned: bool): (ok: bool)
    requires |requestBuf| > 0
    ensures ok <==> requestBuf[0] == RFC1002_SESSION_MESSAGE
    ensures requestBuf[0] == RFC1002_SESSION_KEEP_ALIVE ==> !ok
  {
    var t := CharValue(requestBuf[0], charIsSigned);
    if t == RFC1002_SESSION_MESSAGE then true
    else if t == RFC1002_SESSION_KEEP_ALIVE then false
    else false
  }

  /**
    check_message: an SMB2 signature hands the buffer to the SMB2 checker,
    whose result `smb2Rc` is passed through unchanged; anything else goes to
    the SMB1 checker. 0 accepts, 1 rejects. This dispatcher calls the
    corrected SMB1 validator, which compares the unwrapped data length;
    CheckMessageAsWritten calls the validator as written.
   */
  function CheckMessage(hdr: Smb1Misc.Smb1Request, len: u32, smb2Rc: int): (rc: int)
    ensures hdr.protocol == SMB2_PROTO_NUMBER ==> rc == smb2Rc
    ensures hdr.protocol != SMB2_PROTO_NUMBER ==> (rc == 0 || rc == 1)
    ensures hdr.protocol != SMB2_PROTO_NUMBER ==> (rc == 0 <==> Smb1Misc.Smb1CheckMessage(hdr, len).Accept?)
  {
    if hdr.protocol == SMB2_PROTO_NUMBER then smb2Rc
    else if Smb1Misc.Smb1CheckMessage(hdr, len).Accept? then 0 else 1
  }

  /** check_message as written: the SMB1 branch reaches the validator with the wrapped data length. */
  function CheckMessageAsWritten(hdr: Smb1Misc.Smb1Request, len: u32, smb2Rc: int): (rc: int)
    ensures hdr.protocol == SMB2_PROTO_NUMBER ==> rc == smb2Rc
    ensures hdr.protocol != SMB2_PROTO_NUMBER ==> (rc == 0 || rc == 1)
    ensures hdr.protocol != SMB2_PROTO_NUMBER ==> (rc == 0 <==> Smb1Misc.Smb1CheckMessageAsWritten(hdr, len).Accept?)
    ensures Smb1Misc.DataRegionEnd(hdr) < TWO_TO_32 ==> rc == CheckMessage(hdr, len, smb2Rc)
  {
    if hdr.protocol == SMB2_PROTO_NUMBER then smb2Rc
    else if Smb1Misc.Smb1CheckMessageAsWritten(hdr, len).Accept? then 0 else 1
  }

  /**
    The wrapped WRITE_ANDX data length reaches the dispatcher: as written it
    answers 0 for the request whose data region ends at 2^32, and with the
    corrected validator it answers 1.
   */
  lemma DispatcherPassesWrappedWrite(len: u32, smb2Rc: int)
    ensures var hdr := Smb1Misc.Smb1Request(SMB1_PROTO_NUMBER, 0, 0, Smb1Misc.SMB_COM_WRITE_ANDX, 0xc, 1, 1, 0xFFFF, 0xFFFF, 0);
            && CheckMessageAsWritten(hdr, len, smb2Rc) == 0
            && CheckMessage(hdr, len, smb2Rc) == 1
  {
    Smb1Misc.WrappedWriteLengthSlipsThrough(len);
  }

  /**
    The dispatcher adds no judgement of its own: a buffer with neither
    signature is rejected by the SMB1 header guard, and an SMB1 buffer is
    accepted exactly when it is well formed.
   */
  lemma DispatcherOnlyRoutes(hdr: Smb1Misc.Smb1Request, len: u32, smb2Rc: int)
    requires len < 0x100_0000
    ensures hdr.protocol != SMB1_PROTO_NUMBER && hdr.protocol != SMB2_PROTO_NUMBER ==>
              CheckMessage(hdr, len, smb2Rc) == 1 &&
              Smb1Misc.Smb1CheckMessage(hdr, len) == Smb1Misc.Reject(Smb1Misc.BadHeader)
    ensures hdr.protocol == SMB1_PROTO_NUMBER ==>
              (CheckMessage(hdr, len, smb2Rc) == 0 <==> Smb1Misc.Smb1WellFormed(hdr, len))
  {
    Smb1Misc.Smb1AcceptIff(hdr, len);
  }

  // ---------------------------------------------------------------------
  // SMB2 negotiation by dialect id

  /** The argument cifsd_lookup_smb2_dialect passes to supported_protocol: the table position. */
  const SMB2_POSITION_KEYS: seq<int> := [0, 1, 2, 3, 4, 5]

  /** The entry's own index, which the range is defined over. */
  const SMB2_INDEX_KEYS: seq<int> := [CIFSD_SMB2_PROT, CIFSD_SMB21_PROT, CIFSD_SMB2X_PROT,
                                      CIFSD_SMB30_PROT, CIFSD_SMB302_PROT, CIFSD_SMB311_PROT]

  /** Table position i is offered by the client and its key lies in the configured range. */
  predicate Smb2Qualifies(cli: seq<u16>, conf: ProtocolRange, keys: seq<int>, i: int)
    requires |keys| == |SMB2_PROTOS|
  {
    0 <= i < |SMB2_PROTOS| && SMB2_PROTOS[i].protId in cli && SupportedProtocol(conf, keys[i])
  }

  /** The id of the highest qualifying table position below k, or the sentinel. */
  function Smb2Pick(cli: seq<u16>, conf: ProtocolRange, keys: seq<int>, k: nat): u16
    requires |keys| == |SMB2_PROTOS| && k <= |SMB2_PROTOS|
  {
    if k == 0 then CIFSD_BAD_PROT_ID
    else if Smb2Qualifies(cli, conf, keys, k - 1) then SMB2_PROTOS[k - 1].protId
    else Smb2Pick(cli, conf, keys, k - 1)
  }

  /**
    The pick is the sentinel exactly when no position below k qualifies,
    and otherwise the id of the highest qualifying position.
   */
  lemma {:induction false} Smb2PickSpec(cli: seq<u16>, conf: ProtocolRange, keys: seq<int>, k: nat)
    requires |keys| == |SMB2_PROTOS| && k <= |SMB2_PROTOS|
    ensures var r := Smb2Pick(cli, conf, keys, k);
            && (r == CIFSD_BAD_PROT_ID <==> forall i :: 0 <= i < k ==> !Smb2Qualifies(cli, conf, keys, i))
            && (r != CIFSD_BAD_PROT_ID ==>
                  exists j :: 0 <= j < k && Smb2Qualifies(cli, conf, keys, j) && r == SMB2_PROTOS[j].protId &&
                              forall i :: j < i < k ==> !Smb2Qualifies(cli, conf, keys, i))
  {
    Smb2TableShape();
    if k > 0 && !Smb2Qualifies(cli, conf, keys, k - 1) {
      Smb2PickSpec(cli, conf, keys, k - 1);
    }
  }

  /**
    The dialect the server should select: the newest dialect the client
    offers whose index lies in the configured range.
   */
  function Smb2Dialect(cli: seq<u16>, conf: ProtocolRange): (r: u16)
    ensures r != CIFSD_BAD_PROT_ID ==>
              r in cli && exists i :: 0 <= i < |SMB2_PROTOS| && SMB2_PROTOS[i].protId == r &&
                                      SupportedProtocol(conf, SMB2_PROTOS[i].index)
    ensures cli == [] ==> r == CIFSD_BAD_PROT_ID
  {
    Smb2PickSpec(cli, conf, SMB2_INDEX_KEYS, |SMB2_PROTOS|);
    Smb2Pick(cli, conf, SMB2_INDEX_KEYS, |SMB2_PROTOS|)
  }

  /** The dialect cifsd_lookup_smb2_dialect selects as written: the range is applied to the table position. */
  function Smb2DialectAsWritten(cli: seq<u16>, conf: ProtocolRange): (r: u16)
    ensures r != CIFSD_BAD_PROT_ID ==>
              r in cli && exists i :: 0 <= i < |SMB2_PROTOS| && SMB2_PROTOS[i].protId == r && SupportedProtocol(conf, i)
  {
    Smb2PickSpec(cli, conf, SMB2_POSITION_KEYS, |SMB2_PROTOS|);
    Smb2Pick(cli, conf, SMB2_POSITION_KEYS, |SMB2_PROTOS|)
  }

  /**
    Preference for the newest dialect: when two table positions both
    qualify, the older one is never chosen.
   */
  lemma Smb2PrefersNewest(cli: seq<u16>, conf: ProtocolRange, older: int, newer: int)
    requires 0 <= older < newer < |SMB2_PROTOS|
    requires Smb2Qualifies(cli, conf, SMB2_INDEX_KEYS, older)
    requires Smb2Qualifies(cli, conf, SMB2_INDEX_KEYS, newer)
    ensures Smb2Dialect(cli, conf) != SMB2_PROTOS[older].protId
    ensures Smb2Dialect(cli, conf) != CIFSD_BAD_PROT_ID
  {
    Smb2TableShape();
    Smb2PickSpec(cli, conf, SMB2_INDEX_KEYS, |SMB2_PROTOS|);
  }

  /**
    Applying the range to positions instead of indices shifts it by one
    dialect: with the range [SMB2_PROT, SMB2_PROT] a client offering
    0x0202 and 0x0210 gets SMB 2.1 instead of SMB 2.002, and with
    [SMB2_PROT, SMB302_PROT] a client offering only 0x0311 gets SMB 3.1.1,
    above the range.
   */
  lemma PositionKeyShiftsRange()
    ensures Smb2DialectAsWritten([0x0202, 0x0210], ProtocolRange(CIFSD_SMB2_PROT, CIFSD_SMB2_PROT)) == CIFSD_SMB21_PROT_ID
    ensures Smb2Dialect([0x0202, 0x0210], ProtocolRange(CIFSD_SMB2_PROT, CIFSD_SMB2_PROT)) == CIFSD_SMB20_PROT_ID
    ensures Smb2DialectAsWritten([0x0311], ProtocolRange(CIFSD_SMB2_PROT, CIFSD_SMB302_PROT)) == CIFSD_SMB311_PROT_ID
    ensures Smb2Dialect([0x0311], ProtocolRange(CIFSD_SMB2_PROT, CIFSD_SMB302_PROT)) == CIFSD_BAD_PROT_ID
  {
    Smb2TableShape();
    var narrow := ProtocolRange(CIFSD_SMB2_PROT, CIFSD_SMB2_PROT);
    assert Smb2Qualifies([0x0202, 0x0210], narrow, SMB2_INDEX_KEYS, 0);
    assert forall k :: 1 <= k < |SMB2_PROTOS| ==> !Smb2Qualifies([0x0202, 0x0210], narrow, SMB2_INDEX_KEYS, k);
    var upTo302 := ProtocolRange(CIFSD_SMB2_PROT, CIFSD_SMB302_PROT);
    assert forall k :: 0 <= k < |SMB2_PROTOS| ==> !Smb2Qualifies([0x0311], upTo302, SMB2_INDEX_KEYS, k);
    assert Smb2Qualifies([0x0311], upTo302, SMB2_POSITION_KEYS, 5);
    Smb2PickSpec([0x0202, 0x0210], narrow, SMB2_INDEX_KEYS, |SMB2_PROTOS|);
    Smb2PickSpec([0x0311], upTo302, SMB2_INDEX_KEYS, |SMB2_PROTOS|);
  }

  /**
    cifsd_lookup_smb2_dialect with the range applied to the entry's index
    (the corrected selection; as written the code applies it to the table
    position, see Smb2DialectAsWritten): newest table entry first, scan the
    first `dialectsCount` client ids from the last one down, and answer with
    the first entry that is offered and inside the configured range.
   */
  method LookupSmb2Dialect(cliDialects: seq<u16>, dialectsCount: u16, conf: ProtocolRange) returns (r: int)
    requires dialectsCount <= |cliDialects|
    ensures r == Smb2Dialect(cliDialects[..dialectsCount], conf)
  {
    ghost var cli := cliDialects[..dialectsCount];
    Smb2TableShape();
    var i := |SMB2_PROTOS| - 1;
    while i >= 0
      invariant -1 <= i < |SMB2_PROTOS|
      invariant Smb2Pick(cli, conf, SMB2_INDEX_KEYS, i + 1) == Smb2Dialect(cli, conf)
    {
      var count: int := dialectsCount - 1;
      while count >= 0
        invariant -1 <= count < dialectsCount
        invariant forall c :: count < c < dialectsCount ==>
                    cli[c] != SMB2_PROTOS[i].protId || !SupportedProtocol(conf, SMB2_PROTOS[i].index)
      {
        if cliDialects[count] == SMB2_PROTOS[i].protId && SupportedProtocol(conf, SMB2_PROTOS[i].index) {
          assert cli[count] == SMB2_PROTOS[i].protId;
          return SMB2_PROTOS[i].protId;
        }
        count := count - 1;
      }
      assert !Smb2Qualifies(cli, conf, SMB2_INDEX_KEYS, i);
      i := i - 1;
    }
    return CIFSD_BAD_PROT_ID;
  }

  // ---------------------------------------------------------------------
  // SMB1 negotiation by dialect string

  /** The client's dialect area: empty, or NUL-terminated strings back to back. */
  predicate WellFormedDialects(area: seq<char>) {
    area == [] || area[|area| - 1] == NUL
  }

  /** strlen: the number of characters before the first NUL. */
  function StrLen(s: seq<char>): (n: nat)
    requires NUL in s
    ensures n < |s| && s[n] == NUL && NUL !in s[..n]
  {
    if s[0] == NUL then 0
    else
      var n := StrLen(s[1..]) + 1;
      assert s[..n] == [s[0]] + s[1..][..n - 1];
      n
  }

  /** The dialect strings of a well-formed area, without their terminators. */
  function Dialects(area: seq<char>): seq<string>
    requires WellFormedDialects(area)
    decreases |area|
  {
    if area == [] then []
    else
      var n := StrLen(area);
      [area[..n]] + Dialects(area[n + 1..])
  }

  /** The wire form of a list of dialect strings: each followed by its NUL. */
  function JoinDialects(ds: seq<string>): seq<char> {
    if ds == [] then [] else ds[0] + [NUL] + JoinDialects(ds[1..])
  }

  /** A nonempty well-formed area is its first string, that string's NUL, and a well-formed rest. */
  lemma SplitFirstDialect(area: seq<char>)
    requires WellFormedDialects(area) && area != []
    ensures var n := StrLen(area);
            && area == area[..n] + [NUL] + area[n + 1..]
            && WellFormedDialects(area[n + 1..])
  {
    var n := StrLen(area);
    var rest := area[n + 1..];
    if rest != [] {
      assert rest[|rest| - 1] == area[|area| - 1];
    }
  }

  /** Splitting a well-formed area and joining the strings again gives the area back. */
  lemma {:induction false} DialectsJoinRoundTrip(area: seq<char>)
    requires WellFormedDialects(area)
    ensures JoinDialects(Dialects(area)) == area
    decreases |area|
  {
    if area != [] {
      var n := StrLen(area);
      var rest := area[n + 1..];
      SplitFirstDialect(area);
      DialectsJoinRoundTrip(rest);
      var ds := Dialects(area);
      assert ds[0] == area[..n] && ds[1..] == Dialects(rest);
    }
  }

  /** No string cut from an area contains a NUL: each one ends where strlen stops. */
  lemma {:induction false} DialectsHaveNoNul(area: seq<char>)
    requires WellFormedDialects(area)
    ensures forall d :: d in Dialects(area) ==> NUL !in d
    decreases |area|
  {
    if area != [] {
      SplitFirstDialect(area);
      DialectsHaveNoNul(area[StrLen(area) + 1..]);
    }
  }

  /** strlen stops at the terminator of the first string of a joined area. */
  lemma StrLenOfJoin(first: string, rest: seq<char>)
    requires NUL !in first
    ensures StrLen(first + [NUL] + rest) == |first|
  {
    var area := first + [NUL] + rest;
    assert area[|first|] == NUL;
    assert forall k :: 0 <= k < |first| ==> area[k] == first[k];
  }

  /** Splitting `first`, its NUL and a well-formed rest yields `first` ahead of the rest's strings. */
  lemma DialectsOfCons(first: string, rest: seq<char>)
    requires NUL !in first && WellFormedDialects(rest)
    ensures WellFormedDialects(first + [NUL] + rest)
    ensures Dialects(first + [NUL] + rest) == [first] + Dialects(rest)
  {
    var area := first + [NUL] + rest;
    if rest != [] {
      assert area[|area| - 1] == rest[|rest| - 1];
    }
    StrLenOfJoin(first, rest);
    assert area[..|first|] == first;
    assert area[|first| + 1..] == rest;
  }

  /** Joining strings without NULs and splitting the result gives the strings back. */
  lemma {:induction false} JoinDialectsRoundTrip(ds: seq<string>)
    requires forall d :: d in ds ==> NUL !in d
    ensures WellFormedDialects(JoinDialects(ds))
    ensures Dialects(JoinDialects(ds)) == ds
  {
    if ds != [] {
      assert ds[0] in ds;
      assert forall d :: d in ds[1..] ==> d in ds;
      JoinDialectsRoundTrip(ds[1..]);
      DialectsOfCons(ds[0], JoinDialects(ds[1..]));
      assert ds == [ds[0]] + ds[1..];
    }
  }

  /** The position of the first client string that is a prefix of `name` (strncmp over its own length), or -1. */
  function FirstPrefixMatch(ds: seq<string>, name: string): (j: int)
    ensures -1 <= j < |ds|
    ensures j >= 0 ==> ds[j] <= name && forall k :: 0 <= k < j ==> !(ds[k] <= name)
    ensures j == -1 ==> forall k :: 0 <= k < |ds| ==> !(ds[k] <= name)
  {
    if ds == [] then -1
    else if ds[0] <= name then 0
    else
      var j := FirstPrefixMatch(ds[1..], name);
      if j < 0 then -1 else j + 1
  }

  /**
    The SMB1 answer: when SMB1 is built in and its index lies in the
    range, the position in the client's list of the first string that
    starts "\2NT LM 0.12"; otherwise the sentinel.
   */
  function Smb1Dialect(ds: seq<string>, smb1Server: bool, conf: ProtocolRange): (r: int)
    ensures r == CIFSD_BAD_PROT_ID || (0 <= r < |ds| && ds[r] <= NT_LM_DIALECT)
    ensures r != CIFSD_BAD_PROT_ID ==> smb1Server && SupportedProtocol(conf, CIFSD_SMB1_PROT)
    ensures smb1Server && SupportedProtocol(conf, CIFSD_SMB1_PROT) && NT_LM_DIALECT in ds && |ds| <= 0xFFFF ==>
              r != CIFSD_BAD_PROT_ID
  {
    var j := FirstPrefixMatch(ds, Smb1Protos(true)[0].name);
    if smb1Server && j >= 0 && SupportedProtocol(conf, CIFSD_SMB1_PROT) then j else CIFSD_BAD_PROT_ID
  }

  /**
    The walk over a well-formed area, string by string: `pos` plus the
    number of strings passed before the first one that is a prefix of
    `name`, or -1 when the area runs out.
   */
  function WalkMatch(area: seq<char>, name: string, pos: int): int
    requires WellFormedDialects(area)
    decreases |area|
  {
    if area == [] then -1
    else
      var n := StrLen(area);
      SplitFirstDialect(area);
      if area[..n] <= name then pos else WalkMatch(area[n + 1..], name, pos + 1)
  }

  /** The walk finds the first string of the list that is a prefix of `name`. */
  lemma {:induction false} WalkMatchFindsFirst(area: seq<char>, name: string, pos: int)
    requires WellFormedDialects(area)
    ensures var j := FirstPrefixMatch(Dialects(area), name);
            WalkMatch(area, name, pos) == if j < 0 then -1 else pos + j
    decreases |area|
  {
    if area != [] {
      var n := StrLen(area);
      SplitFirstDialect(area);
      var rest := Dialects(area[n + 1..]);
      assert Dialects(area) == [area[..n]] + rest;
      assert ([area[..n]] + rest)[1..] == rest;
      WalkMatchFindsFirst(area[n + 1..], name, pos + 1);
    }
  }

  /**
    cifsd_lookup_smb1_dialect, both builds. In the SMB1 build: for each
    table entry, newest first, walk the client's strings while the byte
    count lasts and answer with the list position of the first string that
    starts the entry's name, if the entry is inside the range.
   */
  method LookupSmb1Dialect(cliDialects: seq<char>, byteCount: u16, smb1Server: bool, conf: ProtocolRange)
    returns (r: int)
    requires byteCount <= |cliDialects| && WellFormedDialects(cliDialects[..byteCount])
    ensures r == Smb1Dialect(Dialects(cliDialects[..byteCount]), smb1Server, conf)
  {
    if !smb1Server {
      return CIFSD_BAD_PROT_ID;
    }
    ghost var area := cliDialects[..byteCount];
    var protos := Smb1Protos(true);
    WalkMatchFindsFirst(area, protos[0].name, 0);
    var i := |protos| - 1;
    while i >= 0
      invariant -1 <= i < |protos|
      invariant i == -1 ==> WalkMatch(area, protos[0].name, 0) == -1 || !SupportedProtocol(conf, 0)
    {
      var smb1Index := 0;
      var bcount: int := byteCount;
      var dialects := cliDialects[..byteCount];
      while bcount != 0
        invariant bcount == |dialects| && WellFormedDialects(dialects)
        invariant SupportedProtocol(conf, i) ==> WalkMatch(dialects, protos[i].name, smb1Index) == WalkMatch(area, protos[i].name, 0)
        decreases bcount
      {
        var cliCount := StrLen(dialects);
        SplitFirstDialect(dialects);
        if dialects[..cliCount] <= protos[i].name {
          if SupportedProtocol(conf, i) {
            if i == CIFSD_SMB1_PROT {
              return smb1Index;
            } else {
              assert false;
            }
          }
        }
        cliCount := cliCount + 1;
        bcount := bcount - cliCount;
        dialects := dialects[cliCount..];
        smb1Index := smb1Index + 1;
      }
      i := i - 1;
    }
    return CIFSD_BAD_PROT_ID;
  }

  // ---------------------------------------------------------------------
  // Top-level negotiation

  /**
    A negotiate request as the negotiator reads it: the signature, the SMB1
    byte count and dialect area, and the SMB2 dialect count and id array.
   */
  datatype NegotiateRequest = NegotiateRequest(
    protocol: u32,
    byteCount: u16,
    dialectsArray: seq<char>,
    dialectCount: u16,
    dialects: seq<u16>)

  /** The part of the request the chosen negotiator reads lies inside the buffer. */
  predicate NegotiateBufferOk(req: NegotiateRequest) {
    && (req.protocol == SMB1_PROTO_NUMBER ==>
          req.byteCount <= |req.dialectsArray| && WellFormedDialects(req.dialectsArray[..req.byteCount]))
    && (req.protocol == SMB2_PROTO_NUMBER ==> req.dialectCount <= |req.dialects|)
  }

  /**
    negotiate_dialect: route on the signature to the string-list or the
    id-list negotiator. The SMB2 branch calls the index-keyed negotiator, so
    its answer is the corrected selection Smb2Dialect, not
    Smb2DialectAsWritten.
   */
  method NegotiateDialect(req: NegotiateRequest, smb1Server: bool, conf: ProtocolRange) returns (r: int)
    requires NegotiateBufferOk(req)
    ensures req.protocol == SMB1_PROTO_NUMBER ==>
              r == Smb1Dialect(Dialects(req.dialectsArray[..req.byteCount]), smb1Server, conf)
    ensures req.protocol == SMB2_PROTO_NUMBER ==>
              r == Smb2Dialect(req.dialects[..req.dialectCount], conf)
    ensures req.protocol != SMB1_PROTO_NUMBER && req.protocol != SMB2_PROTO_NUMBER ==>
              r == CIFSD_BAD_PROT_ID
  {
    r := CIFSD_BAD_PROT_ID;
    if req.protocol == SMB1_PROTO_NUMBER {
      r := LookupSmb1Dialect(req.dialectsArray, req.byteCount, smb1Server, conf);
    } else if req.protocol == SMB2_PROTO_NUMBER {
      r := LookupSmb2Dialect(req.dialects, req.dialectCount, conf);
    }
  }
}
