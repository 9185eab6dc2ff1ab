/**
  The SMB1 request validator: the gate every SMB1 request passes before it is
  dispatched. A request is given by the header fields the validator reads,
  already decoded from the little-endian wire form; the stages are the header
  guard, the per-command parameter word-count rule, the per-command byte-count
  rule, the total-size calculator, the secondary data-region extractor and
  the orchestrator that runs them in order.
 */
module Smb1Misc {
  import opened SmbTypes

  // Command codes ([MS-CIFS] section 2.2.2.1).
  const SMB_COM_CREATE_DIRECTORY: u8 := 0x00
  const SMB_COM_DELETE_DIRECTORY: u8 := 0x01
  const SMB_COM_CLOSE: u8 := 0x04
  const SMB_COM_FLUSH: u8 := 0x05
  const SMB_COM_DELETE: u8 := 0x06
  const SMB_COM_RENAME: u8 := 0x07
  const SMB_COM_QUERY_INFORMATION: u8 := 0x08
  const SMB_COM_SETATTR: u8 := 0x09
  const SMB_COM_WRITE: u8 := 0x0B
  const SMB_COM_CHECK_DIRECTORY: u8 := 0x10
  const SMB_COM_PROCESS_EXIT: u8 := 0x11
  const SMB_COM_LOCKING_ANDX: u8 := 0x24
  const SMB_COM_TRANSACTION: u8 := 0x25
  const SMB_COM_ECHO: u8 := 0x2B
  const SMB_COM_OPEN_ANDX: u8 := 0x2D
  const SMB_COM_READ_ANDX: u8 := 0x2E
  const SMB_COM_WRITE_ANDX: u8 := 0x2F
  const SMB_COM_TRANSACTION2: u8 := 0x32
  const SMB_COM_FIND_CLOSE2: u8 := 0x34
  const SMB_COM_TREE_DISCONNECT: u8 := 0x71
  const SMB_COM_NEGOTIATE: u8 := 0x72
  const SMB_COM_SESSION_SETUP_ANDX: u8 := 0x73
  const SMB_COM_LOGOFF_ANDX: u8 := 0x74
  const SMB_COM_TREE_CONNECT_ANDX: u8 := 0x75
  const SMB_COM_NT_CREATE_ANDX: u8 := 0xA2
  const SMB_COM_NT_CANCEL: u8 := 0xA4
  const SMB_COM_NT_RENAME: u8 := 0xA5

  /** The reply bit of Flags and the Unicode bit of Flags2 ([MS-CIFS] section 2.2.3.1). */
  const SMBFLG_RESPONSE: bv8 := 0x80
  const SMBFLG2_UNICODE: bv16 := 0x8000

  /** Length of the fixed SMB1 header, from the signature to Mid ([MS-CIFS] section 2.2.3.1). */
  const SMB_HEADER_LEN: nat := 32

  /**
    sizeof(struct smb_hdr): the 4-byte transport length that precedes the
    message in the request buffer, the 32-byte header and the WordCount byte.
   */
  const SMB_HDR_SIZE: nat := 4 + SMB_HEADER_LEN + 1

  /** The 27 commands the word-count table knows. */
  const STRUCT_SIZE_COMMANDS: set<u8> := {
    SMB_COM_CREATE_DIRECTORY, SMB_COM_DELETE_DIRECTORY, SMB_COM_QUERY_INFORMATION,
    SMB_COM_TREE_DISCONNECT, SMB_COM_NEGOTIATE, SMB_COM_NT_CANCEL,
    SMB_COM_CHECK_DIRECTORY, SMB_COM_PROCESS_EXIT,
    SMB_COM_FLUSH, SMB_COM_DELETE, SMB_COM_RENAME, SMB_COM_ECHO, SMB_COM_FIND_CLOSE2,
    SMB_COM_LOGOFF_ANDX, SMB_COM_CLOSE, SMB_COM_TREE_CONNECT_ANDX, SMB_COM_NT_RENAME,
    SMB_COM_WRITE, SMB_COM_SETATTR, SMB_COM_LOCKING_ANDX, SMB_COM_TRANSACTION,
    SMB_COM_SESSION_SETUP_ANDX, SMB_COM_OPEN_ANDX, SMB_COM_TRANSACTION2,
    SMB_COM_NT_CREATE_ANDX, SMB_COM_READ_ANDX, SMB_COM_WRITE_ANDX
  }

  /**
    An SMB1 request as the validator sees it: the header fields, the byte
    count stored after the parameter words, and the command-specific
    data-region fields of WRITE_ANDX (DataOffset, DataLengthLow,
    DataLengthHigh) and of TRANSACTION / TRANSACTION2 (DataOffset, DataCount).
   */
  datatype Smb1Request = Smb1Request(
    protocol: u32,
    flags: bv8,
    flags2: bv16,
    command: u8,
    wordCount: u8,
    byteCount: u16,
    dataOffset: u16,
    dataLengthLow: u16,
    dataLengthHigh: u16,
    dataCount: u16)

  /** Offset of the 16-bit byte-count field in the request buffer. */
  function ByteCountOffset(wordCount: u8): nat {
    SMB_HDR_SIZE + 2 * wordCount
  }

  // ---------------------------------------------------------------------
  // Header guard

  /** check_smb1_hdr: 0 for an SMB1 request, 1 for a wrong signature or a reply. */
  function CheckSmb1Hdr(hdr: Smb1Request): (rc: int)
    ensures rc == 0 || rc == 1
    ensures rc == 0 <==> hdr.protocol == SMB1_PROTO_NUMBER && hdr.flags < 0x80
  {
    if hdr.protocol != SMB1_PROTO_NUMBER then 1
    else if hdr.flags & SMBFLG_RESPONSE == 0 then 0
    else 1
  }

  // ---------------------------------------------------------------------
  // Parameter word-count rule

  /** What a command demands of WordCount. */
  datatype WordRule = Exactly(n: nat) | EitherOf(a: nat, b: nat) | AtLeast(min: nat)

  predicate WordRuleAdmits(rule: WordRule, wc: int) {
    match rule
    case Exactly(n) => wc == n
    case EitherOf(a, b) => wc == a || wc == b
    case AtLeast(m) => wc >= m
  }

  /** The switch of smb1_req_struct_size as a table; None is its default case. */
  function WordCountRule(command: u8): Option<WordRule> {
    if command in {SMB_COM_CREATE_DIRECTORY, SMB_COM_DELETE_DIRECTORY, SMB_COM_QUERY_INFORMATION,
                   SMB_COM_TREE_DISCONNECT, SMB_COM_NEGOTIATE, SMB_COM_NT_CANCEL,
                   SMB_COM_CHECK_DIRECTORY, SMB_COM_PROCESS_EXIT} then Some(Exactly(0x0))
    else if command in {SMB_COM_FLUSH, SMB_COM_DELETE, SMB_COM_RENAME, SMB_COM_ECHO,
                        SMB_COM_FIND_CLOSE2} then Some(Exactly(0x1))
    else if command == SMB_COM_LOGOFF_ANDX then Some(Exactly(0x2))
    else if command == SMB_COM_CLOSE then Some(Exactly(0x3))
    else if command in {SMB_COM_TREE_CONNECT_ANDX, SMB_COM_NT_RENAME} then Some(Exactly(0x4))
    else if command == SMB_COM_WRITE then Some(Exactly(0x5))
    else if command in {SMB_COM_SETATTR, SMB_COM_LOCKING_ANDX} then Some(Exactly(0x8))
    else if command == SMB_COM_TRANSACTION then Some(AtLeast(0xe))
    else if command == SMB_COM_SESSION_SETUP_ANDX then Some(Exactly(0xc))
    else if command in {SMB_COM_OPEN_ANDX, SMB_COM_TRANSACTION2} then Some(Exactly(0xf))
    else if command == SMB_COM_NT_CREATE_ANDX then Some(Exactly(0x18))
    else if command == SMB_COM_READ_ANDX then Some(EitherOf(0xa, 0xc))
    else if command == SMB_COM_WRITE_ANDX then Some(EitherOf(0xc, 0xe))
    else None
  }

  predicate WordCountOk(command: u8, wc: int) {
    WordCountRule(command).Some? && WordRuleAdmits(WordCountRule(command).value, wc)
  }

  /**
    smb1_req_struct_size: WordCount when the command's rule admits it,
    -EINVAL when it does not, -EOPNOTSUPP for a command outside the table.
   */
  function Smb1ReqStructSize(hdr: Smb1Request): (r: int)
    ensures r == hdr.wordCount || r == -EINVAL || r == -EOPNOTSUPP
    ensures r == -EOPNOTSUPP <==> hdr.command !in STRUCT_SIZE_COMMANDS
    ensures r == hdr.wordCount <==> WordCountOk(hdr.command, hdr.wordCount)
  {
    match WordCountRule(hdr.command)
    case None => -EOPNOTSUPP
    case Some(rule) => if WordRuleAdmits(rule, hdr.wordCount) then hdr.wordCount else -EINVAL
  }

  /** The three commands whose word-count rule is not a single exact count. */
  lemma WordCountAlternatives(hdr: Smb1Request)
    ensures hdr.command == SMB_COM_READ_ANDX ==>
      (Smb1ReqStructSize(hdr) == hdr.wordCount <==> hdr.wordCount == 0xa || hdr.wordCount == 0xc)
    ensures hdr.command == SMB_COM_WRITE_ANDX ==>
      (Smb1ReqStructSize(hdr) == hdr.wordCount <==> hdr.wordCount == 0xc || hdr.wordCount == 0xe)
    ensures hdr.command == SMB_COM_TRANSACTION ==>
      (Smb1ReqStructSize(hdr) == hdr.wordCount <==> hdr.wordCount >= 0xe)
  {
  }

  // ---------------------------------------------------------------------
  // Byte-count rule

  /** What a command demands of the byte count. */
  datatype ByteRule = ExactBytes(n: nat) | MinBytes(min: nat)

  predicate IsUnicode(flags2: bv16) {
    flags2 & SMBFLG2_UNICODE != 0
  }

  /**
    The switch of smb1_get_byte_count as a table. It has no default case:
    None means the byte count is returned unchecked.
   */
  function ByteCountRule(command: u8, flags2: bv16): Option<ByteRule> {
    if command in {SMB_COM_CLOSE, SMB_COM_FLUSH, SMB_COM_READ_ANDX, SMB_COM_TREE_DISCONNECT,
                   SMB_COM_LOGOFF_ANDX, SMB_COM_NT_CANCEL, SMB_COM_PROCESS_EXIT,
                   SMB_COM_FIND_CLOSE2} then Some(ExactBytes(0x0))
    else if command in {SMB_COM_LOCKING_ANDX, SMB_COM_TRANSACTION, SMB_COM_TRANSACTION2,
                        SMB_COM_ECHO, SMB_COM_SESSION_SETUP_ANDX} then Some(MinBytes(0x0))
    else if command == SMB_COM_WRITE_ANDX then Some(MinBytes(0x1))
    else if command in {SMB_COM_CREATE_DIRECTORY, SMB_COM_DELETE_DIRECTORY, SMB_COM_DELETE,
                        SMB_COM_RENAME, SMB_COM_QUERY_INFORMATION, SMB_COM_SETATTR,
                        SMB_COM_OPEN_ANDX, SMB_COM_NEGOTIATE,
                        SMB_COM_CHECK_DIRECTORY} then Some(MinBytes(0x2))
    else if command in {SMB_COM_TREE_CONNECT_ANDX, SMB_COM_WRITE} then Some(MinBytes(0x3))
    else if command == SMB_COM_NT_RENAME then Some(MinBytes(0x4))
    else if command == SMB_COM_NT_CREATE_ANDX then
      (if IsUnicode(flags2) then Some(MinBytes(3)) else Some(MinBytes(2)))
    else None
  }

  predicate ByteRuleAdmits(rule: ByteRule, bc: int) {
    match rule
    case ExactBytes(n) => bc == n
    case MinBytes(m) => bc >= m
  }

  predicate ByteCountOk(hdr: Smb1Request) {
    match ByteCountRule(hdr.command, hdr.flags2)
    case None => true
    case Some(rule) => ByteRuleAdmits(rule, hdr.byteCount)
  }

  /** smb1_get_byte_count: the byte count, unchanged, when the command's rule admits it, else -EINVAL. */
  function Smb1GetByteCount(hdr: Smb1Request): (r: int)
    ensures r == hdr.byteCount || r == -EINVAL
    ensures r == hdr.byteCount <==> ByteCountOk(hdr)
  {
    match ByteCountRule(hdr.command, hdr.flags2)
    case None => hdr.byteCount
    case Some(rule) => if ByteRuleAdmits(rule, hdr.byteCount) then hdr.byteCount else -EINVAL
  }

  /** The minimum of each byte-count rule, and the exactly-zero commands. */
  lemma ByteCountRequirements(hdr: Smb1Request)
    ensures hdr.command in {SMB_COM_CLOSE, SMB_COM_FLUSH, SMB_COM_READ_ANDX, SMB_COM_TREE_DISCONNECT,
                            SMB_COM_LOGOFF_ANDX, SMB_COM_NT_CANCEL, SMB_COM_PROCESS_EXIT,
                            SMB_COM_FIND_CLOSE2} ==>
      (Smb1GetByteCount(hdr) == hdr.byteCount <==> hdr.byteCount == 0)
    ensures hdr.command == SMB_COM_WRITE_ANDX ==>
      (Smb1GetByteCount(hdr) == hdr.byteCount <==> hdr.byteCount >= 1)
    ensures hdr.command in {SMB_COM_CREATE_DIRECTORY, SMB_COM_DELETE_DIRECTORY, SMB_COM_DELETE,
                            SMB_COM_RENAME, SMB_COM_QUERY_INFORMATION, SMB_COM_SETATTR,
                            SMB_COM_OPEN_ANDX, SMB_COM_NEGOTIATE, SMB_COM_CHECK_DIRECTORY} ==>
      (Smb1GetByteCount(hdr) == hdr.byteCount <==> hdr.byteCount >= 2)
    ensures hdr.command in {SMB_COM_TREE_CONNECT_ANDX, SMB_COM_WRITE} ==>
      (Smb1GetByteCount(hdr) == hdr.byteCount <==> hdr.byteCount >= 3)
    ensures hdr.command == SMB_COM_NT_RENAME ==>
      (Smb1GetByteCount(hdr) == hdr.byteCount <==> hdr.byteCount >= 4)
  {
  }

  /**
    The `bc < 0` rules never reject: the byte count is an unsigned 16-bit
    value, so those five commands pass with any byte count.
   */
  lemma ZeroMinimumNeverRejects(hdr: Smb1Request)
    requires hdr.command in {SMB_COM_LOCKING_ANDX, SMB_COM_TRANSACTION, SMB_COM_TRANSACTION2,
                             SMB_COM_ECHO, SMB_COM_SESSION_SETUP_ANDX}
    ensures Smb1GetByteCount(hdr) == hdr.byteCount
  {
  }

  /**
    NT_CREATE_ANDX needs one byte more when the name is Unicode: with every
    other field equal, a byte count of 2 passes without SMBFLG2_UNICODE and
    fails with it, and 3 passes both ways.
   */
  lemma NtCreateUnicodeMinimum(hdr: Smb1Request)
    requires hdr.command == SMB_COM_NT_CREATE_ANDX
    ensures Smb1GetByteCount(hdr) == hdr.byteCount <==>
              hdr.byteCount >= (if hdr.flags2 & SMBFLG2_UNICODE != 0 then 3 else 2)
    ensures hdr.byteCount == 2 ==>
              Smb1GetByteCount(hdr.(flags2 := hdr.flags2 | SMBFLG2_UNICODE)) == -EINVAL &&
              Smb1GetByteCount(hdr.(flags2 := hdr.flags2 & !SMBFLG2_UNICODE)) == 2
  {
  }

  /** The two tables list the same commands: every command with a word-count rule has a byte-count rule. */
  lemma TablesCoverSameCommands(command: u8, flags2: bv16)
    ensures WordCountRule(command).Some? <==> ByteCountRule(command, flags2).Some?
  {
  }

  // ---------------------------------------------------------------------
  // Size calculator

  /**
    smb1_calc_size: the on-wire length of the message without its transport
    length: the 32-byte header, the WordCount byte, the parameter words, the
    2-byte byte-count field and the bytes. When the byte-count rule fails it
    returns -EINVAL converted to unsigned int.
   */
  function Smb1CalcSize(hdr: Smb1Request): (r: u32)
    ensures ByteCountOk(hdr) ==> r == SMB_HEADER_LEN + 1 + 2 * hdr.wordCount + 2 + hdr.byteCount
    ensures ByteCountOk(hdr) ==> r + 4 == ByteCountOffset(hdr.wordCount) + 2 + hdr.byteCount
    ensures !ByteCountOk(hdr) ==> r == TWO_TO_32 - EINVAL
  {
    var bc := Smb1GetByteCount(hdr);
    if bc < 0 then TWO_TO_32 + bc
    else SMB_HDR_SIZE - 4 + 2 + 2 * hdr.wordCount + bc
  }

  /** Every size the calculator reports for an admitted byte count fits the 24-bit envelope length; its error value does not. */
  lemma CalcSizeRange(hdr: Smb1Request)
    ensures ByteCountOk(hdr) <==> Smb1CalcSize(hdr) < 0x100_0000
    ensures ByteCountOk(hdr) ==> 35 <= Smb1CalcSize(hdr) <= 35 + 2 * 0xFF + 0xFFFF
  {
  }

  // ---------------------------------------------------------------------
  // Secondary data region

  /** The WRITE_ANDX data length; the halves do not overlap, so `low | high << 16` is a sum. */
  function WriteDataLength(hdr: Smb1Request): nat {
    hdr.dataLengthHigh * 0x1_0000 + hdr.dataLengthLow
  }

  /**
    Where the secondary data region ends, measured as the message's own
    offsets are: DataOffset plus the data length for WRITE_ANDX, DataOffset
    plus DataCount for the two transactions, and 0 for every other command.
    Computed without overflow.
   */
  function DataRegionEnd(hdr: Smb1Request): nat {
    if hdr.command == SMB_COM_WRITE_ANDX then WriteDataLength(hdr) + hdr.dataOffset
    else if hdr.command == SMB_COM_TRANSACTION || hdr.command == SMB_COM_TRANSACTION2 then
      hdr.dataOffset + hdr.dataCount
    else 0
  }

  /**
    smb1_get_data_len as written: the same sum, accumulated in a 32-bit
    `int` and compared as `unsigned int`, so it wraps modulo 2^32.
   */
  function Smb1GetDataLen(hdr: Smb1Request): (r: u32)
    ensures r == DataRegionEnd(hdr) % TWO_TO_32
    ensures hdr.command != SMB_COM_WRITE_ANDX ==> r == DataRegionEnd(hdr)
    ensures r != DataRegionEnd(hdr) ==>
              hdr.command == SMB_COM_WRITE_ANDX && r == DataRegionEnd(hdr) - TWO_TO_32 && r < 0x1_0000
  {
    if hdr.command == SMB_COM_WRITE_ANDX then
      (WriteDataLength(hdr) + hdr.dataOffset) % TWO_TO_32
    else if hdr.command == SMB_COM_TRANSACTION || hdr.command == SMB_COM_TRANSACTION2 then
      hdr.dataOffset + hdr.dataCount
    else 0
  }

  /** Only the three data-carrying commands have a data region. */
  lemma DataRegionOnlyForDataCommands(hdr: Smb1Request)
    ensures DataRegionEnd(hdr) > 0 ==>
      hdr.command in {SMB_COM_WRITE_ANDX, SMB_COM_TRANSACTION, SMB_COM_TRANSACTION2}
    ensures DataRegionEnd(hdr) < TWO_TO_32 + 0x1_0000
    ensures hdr.command == SMB_COM_WRITE_ANDX ==>
      DataRegionEnd(hdr) == hdr.dataOffset + hdr.dataLengthLow + hdr.dataLengthHigh * 0x1_0000
  {
  }

  // ---------------------------------------------------------------------
  // The orchestrator

  /** Why a request is rejected; the C code logs the cause and returns 1 for each. */
  datatype RejectCause = BadHeader | UnsupportedCommand | WordCountMismatch | DataAreaOverrun | LengthMismatch

  datatype Verdict = Accept | Reject(cause: RejectCause)

  /**
    The gates of smb1_check_message in order, given the figure the data-area
    gate compares the envelope length against. The byte-count rule is
    consulted only through the size calculator, and a size mismatch on
    WRITE_ANDX is accepted.
   */
  function CheckGates(hdr: Smb1Request, len: u32, dataLen: int): Verdict {
    if CheckSmb1Hdr(hdr) != 0 then Reject(BadHeader)
    else
      var wc := Smb1ReqStructSize(hdr);
      if wc == -EOPNOTSUPP then Reject(UnsupportedCommand)
      else if hdr.wordCount != wc then Reject(WordCountMismatch)
      else if len < dataLen then Reject(DataAreaOverrun)
      else if len != Smb1CalcSize(hdr) then
        (if hdr.command == SMB_COM_WRITE_ANDX then Accept else Reject(LengthMismatch))
      else Accept
  }

  /**
    smb1_check_message, with the data-area gate comparing against the
    unwrapped end of the data region. `len` is the length the transport
    envelope declares.
   */
  function Smb1CheckMessage(hdr: Smb1Request, len: u32): (v: Verdict)
    ensures v == Reject(BadHeader) <==> CheckSmb1Hdr(hdr) != 0
    ensures v == Reject(UnsupportedCommand) <==>
              CheckSmb1Hdr(hdr) == 0 && hdr.command !in STRUCT_SIZE_COMMANDS
    ensures v == Reject(WordCountMismatch) <==>
              CheckSmb1Hdr(hdr) == 0 && hdr.command in STRUCT_SIZE_COMMANDS && !WordCountOk(hdr.command, hdr.wordCount)
    ensures v == Reject(DataAreaOverrun) <==>
              CheckSmb1Hdr(hdr) == 0 && WordCountOk(hdr.command, hdr.wordCount) && len < DataRegionEnd(hdr)
    ensures v == Reject(LengthMismatch) <==>
              CheckSmb1Hdr(hdr) == 0 && WordCountOk(hdr.command, hdr.wordCount) && DataRegionEnd(hdr) <= len &&
              hdr.command != SMB_COM_WRITE_ANDX && len != Smb1CalcSize(hdr)
    ensures v.Accept? <==>
              CheckSmb1Hdr(hdr) == 0 && WordCountOk(hdr.command, hdr.wordCount) && DataRegionEnd(hdr) <= len &&
              (hdr.command == SMB_COM_WRITE_ANDX || len == Smb1CalcSize(hdr))
  {
    CheckGates(hdr, len, DataRegionEnd(hdr))
  }

  /** smb1_check_message exactly as written: the data-area gate uses the wrapped 32-bit figure. */
  function Smb1CheckMessageAsWritten(hdr: Smb1Request, len: u32): (v: Verdict)
    ensures DataRegionEnd(hdr) < TWO_TO_32 ==> v == Smb1CheckMessage(hdr, len)
    ensures v == Reject(DataAreaOverrun) <==>
              CheckSmb1Hdr(hdr) == 0 && WordCountOk(hdr.command, hdr.wordCount) && len < Smb1GetDataLen(hdr)
    ensures v.Accept? <==>
              CheckSmb1Hdr(hdr) == 0 && WordCountOk(hdr.command, hdr.wordCount) && Smb1GetDataLen(hdr) <= len &&
              (hdr.command == SMB_COM_WRITE_ANDX || len == Smb1CalcSize(hdr))
  {
    CheckGates(hdr, len, Smb1GetDataLen(hdr))
  }

  /**
    A well-formed SMB1 request, stated field by field: a request with the
    SMB1 signature, a word count its command admits, a data region inside
    the envelope, and (except for WRITE_ANDX) an admitted byte count with
    the envelope length equal to the message layout.
   */
  predicate Smb1WellFormed(hdr: Smb1Request, len: int) {
    && hdr.protocol == SMB1_PROTO_NUMBER
    && hdr.flags < 0x80
    && WordCountOk(hdr.command, hdr.wordCount)
    && DataRegionEnd(hdr) <= len
    && (hdr.command == SMB_COM_WRITE_ANDX ||
        (ByteCountOk(hdr) && len == SMB_HEADER_LEN + 1 + 2 * hdr.wordCount + 2 + hdr.byteCount))
  }

  /**
    The checker accepts exactly the well-formed requests. The envelope
    length is 24 bits wide, so it never equals the unsigned -EINVAL the
    size calculator reports for a failed byte-count rule.
   */
  lemma Smb1AcceptIff(hdr: Smb1Request, len: u32)
    requires len < 0x100_0000
    ensures Smb1CheckMessage(hdr, len) == Accept <==> Smb1WellFormed(hdr, len)
  {
    if Smb1CheckMessage(hdr, len) == Accept && hdr.command != SMB_COM_WRITE_ANDX {
      CalcSizeRange(hdr);
    }
  }

  /**
    The gates run in order and a rejection ends the check: once a gate has
    rejected, fields that only later gates read cannot change the outcome.
    After the header, command or word-count gate that is the data region
    fields and the envelope length as well as the byte count; after the
    data-area gate it is the byte count and Flags2, which only the size
    calculator reads.
   */
  lemma EarlyRejectIgnoresLaterFields(hdr: Smb1Request, len: u32, other: Smb1Request, otherLen: u32)
    requires Smb1CheckMessage(hdr, len) in
               {Reject(BadHeader), Reject(UnsupportedCommand), Reject(WordCountMismatch), Reject(DataAreaOverrun)}
    requires other.protocol == hdr.protocol && other.flags == hdr.flags
    requires Smb1CheckMessage(hdr, len) != Reject(BadHeader) ==>
               other.command == hdr.command && other.wordCount == hdr.wordCount
    requires Smb1CheckMessage(hdr, len) == Reject(DataAreaOverrun) ==>
               && otherLen == len && other.dataOffset == hdr.dataOffset && other.dataCount == hdr.dataCount
               && other.dataLengthLow == hdr.dataLengthLow && other.dataLengthHigh == hdr.dataLengthHigh
    ensures Smb1CheckMessage(other, otherLen) == Smb1CheckMessage(hdr, len)
  {
  }

  /**
    The WRITE_ANDX carve-out: once the header, word-count and data-area
    gates pass, WRITE_ANDX is accepted whatever its byte count and length.
   */
  lemma WriteAndxCarveOut(hdr: Smb1Request, len: u32)
    requires hdr.command == SMB_COM_WRITE_ANDX
    requires CheckSmb1Hdr(hdr) == 0
    requires hdr.wordCount == 0xc || hdr.wordCount == 0xe
    requires DataRegionEnd(hdr) <= len
    ensures Smb1CheckMessage(hdr, len) == Accept
  {
  }

  /** The carve-out belongs to WRITE_ANDX alone, and never bypasses the data-area gate. */
  lemma CarveOutOnlyForWriteAndx(hdr: Smb1Request, len: u32)
    requires len < 0x100_0000
    requires Smb1CheckMessage(hdr, len) == Accept
    ensures hdr.command != SMB_COM_WRITE_ANDX ==> ByteCountOk(hdr) && len == Smb1CalcSize(hdr)
    ensures DataRegionEnd(hdr) <= len
  {
    CalcSizeRange(hdr);
  }

  /** Worked examples: CLOSE with three words and no bytes, the same with two words, an unknown command. */
  lemma Smb1CheckMessageExamples(base: Smb1Request)
    requires base.protocol == SMB1_PROTO_NUMBER && base.flags == 0
    ensures Smb1CheckMessage(base.(command := SMB_COM_CLOSE, wordCount := 3, byteCount := 0), 41) == Accept
    ensures Smb1CheckMessage(base.(command := SMB_COM_CLOSE, wordCount := 2), 41) == Reject(WordCountMismatch)
    ensures Smb1CheckMessage(base.(command := 0xFF), 41) == Reject(UnsupportedCommand)
  {
  }

  /**
    As written, a WRITE_ANDX whose data region ends 2^32 bytes out passes
    the data-area gate: the 32-bit sum wraps to 0. The carve-out then
    accepts it whatever the envelope length; the unwrapped check rejects it.
   */
  lemma WrappedWriteLengthSlipsThrough(len: u32)
    ensures var hdr := Smb1Request(SMB1_PROTO_NUMBER, 0, 0, SMB_COM_WRITE_ANDX, 0xc, 1, 1, 0xFFFF, 0xFFFF, 0);
            && Smb1GetDataLen(hdr) == 0
            && DataRegionEnd(hdr) == TWO_TO_32
            && Smb1CheckMessageAsWritten(hdr, len) == Accept
            && Smb1CheckMessage(hdr, len) == Reject(DataAreaOverrun)
  {
  }

  /**
    The discrepancy in general: whenever the header and word-count gates
    pass and the data region ends at or beyond 2^32, the command is
    WRITE_ANDX, the corrected check rejects it as a data-area overrun, and
    the check as written accepts it exactly when the wrapped end fits the
    envelope length.
   */
  lemma WrappedEndAcceptedAsWritten(hdr: Smb1Request, len: u32)
    requires CheckSmb1Hdr(hdr) == 0 && WordCountOk(hdr.command, hdr.wordCount)
    requires DataRegionEnd(hdr) >= TWO_TO_32
    ensures hdr.command == SMB_COM_WRITE_ANDX
    ensures Smb1CheckMessageAsWritten(hdr, len).Accept? <==> DataRegionEnd(hdr) - TWO_TO_32 <= len
    ensures Smb1CheckMessage(hdr, len) == Reject(DataAreaOverrun)
  {
  }
}
