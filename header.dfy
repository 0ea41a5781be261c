/** The header readers of xsmessage.c, each over the raw message bytes. An absent
    buffer (a null m_data) is the empty sequence. Each reader requires exactly the bytes
    it reads; the lemmas at the end relate the readers to one another. */
module Header {
  import opened Bytes
  import opened Xbus

  /** The four fixed header fields exist, and so do the two extended-length bytes when the
      length byte holds the sentinel. */
  predicate HeaderReadable(b: seq<byte>)
  {
    |b| > LENGTH_AT && (b[LENGTH_AT] == XS_EXTLENCODE ==> |b| >= PAYLOAD_AT + 2)
  }

  /** Number of extended-length bytes that follow the length byte. */
  function ExtLenBytes(b: seq<byte>): nat
    requires |b| > LENGTH_AT
  {
    if b[LENGTH_AT] == XS_EXTLENCODE then 2 else 0
  }

  /** XsMessageHeader_dataSize: the declared data size (payload plus any extended id
      bytes); an extended length outside [255, XS_MAXMSGLEN] reads as 0. */
  function HeaderDataSize(b: seq<byte>): (size: nat)
    requires HeaderReadable(b)
    ensures size <= XS_MAXMSGLEN
  {
    if b[LENGTH_AT] != XS_EXTLENCODE then b[LENGTH_AT] as nat
    else
      var len := Be16(b[PAYLOAD_AT], b[PAYLOAD_AT + 1]);
      if len < 255 || len > XS_MAXMSGLEN then 0 else len
  }

  /** The message-id byte is the sentinel and the declared data size can hold the two id bytes. */
  predicate HasExtendedId(b: seq<byte>)
    requires HeaderReadable(b)
  {
    b[MESSAGE_ID_AT] == XMID_EXTENDED_MESSAGE_ID && HeaderDataSize(b) >= 2
  }

  /** XsMessageHeader_dataPtr: index of the first payload byte. */
  function HeaderDataPtr(b: seq<byte>): (ptr: nat)
    requires HeaderReadable(b)
    ensures PAYLOAD_AT <= ptr <= PAYLOAD_AT + 4
  {
    PAYLOAD_AT + ExtLenBytes(b) + (if HasExtendedId(b) then 2 else 0)
  }

  /** XsMessageHeader_payloadSize: the declared data size without the extended id bytes. */
  function HeaderPayloadSize(b: seq<byte>): (size: nat)
    requires HeaderReadable(b)
    ensures size <= HeaderDataSize(b) <= size + 2
  {
    if HasExtendedId(b) then HeaderDataSize(b) - 2 else HeaderDataSize(b)
  }

  /** The buffer holds every byte the header declares ahead of the checksum. */
  predicate HeaderSpans(b: seq<byte>)
  {
    HeaderReadable(b) && |b| >= PAYLOAD_AT + ExtLenBytes(b) + HeaderDataSize(b)
  }

  /** The bytes XsMessageHeader_messageId reads exist: the two extended id bytes after the
      length field(s) when the id byte is the sentinel and the declared size can hold them. */
  predicate IdReadable(b: seq<byte>)
  {
    HeaderReadable(b)
    && (b[MESSAGE_ID_AT] == XMID_EXTENDED_MESSAGE_ID && HeaderDataSize(b) >= 2 ==>
          |b| >= PAYLOAD_AT + ExtLenBytes(b) + 2)
  }

  /** XsMessageHeader_messageId: the one-byte id, or the big-endian extended id that
      follows the length field(s); XMID_INVALID_MESSAGE when the declared size is too small
      to hold it. */
  function HeaderMessageId(b: seq<byte>): (id: nat)
    requires IdReadable(b)
    ensures id <= MAX_MESSAGE_ID
    ensures b[MESSAGE_ID_AT] != XMID_EXTENDED_MESSAGE_ID ==> id <= 0xFF
  {
    if b[MESSAGE_ID_AT] != XMID_EXTENDED_MESSAGE_ID then b[MESSAGE_ID_AT] as nat
    else
      var dataSize := HeaderDataSize(b);
      if b[LENGTH_AT] == XS_EXTLENCODE && dataSize >= 4 then Be16(b[PAYLOAD_AT + 2], b[PAYLOAD_AT + 3])
      else if b[LENGTH_AT] != XS_EXTLENCODE && dataSize >= 2 then Be16(b[PAYLOAD_AT], b[PAYLOAD_AT + 1])
      else XMID_INVALID_MESSAGE
  }

  /** XsMessageHeader_setMessageId: an id above 0xFF becomes the sentinel plus two
      big-endian bytes after the length field(s); a smaller id is stored in the id byte. */
  function WriteId(b: seq<byte>, id: nat): (r: seq<byte>)
    requires HeaderReadable(b)
    requires id > 0xFF ==> |b| >= PAYLOAD_AT + ExtLenBytes(b) + 2
    ensures |r| == |b|
    ensures r[PREAMBLE_AT] == b[PREAMBLE_AT] && r[BUS_ID_AT] == b[BUS_ID_AT] && r[LENGTH_AT] == b[LENGTH_AT]
    ensures id != XMID_EXTENDED_MESSAGE_ID as nat ==> (r[MESSAGE_ID_AT] == XMID_EXTENDED_MESSAGE_ID <==> id > 0xFF)
  {
    if id > 0xFF then
      var at := PAYLOAD_AT + ExtLenBytes(b);
      b[MESSAGE_ID_AT := XMID_EXTENDED_MESSAGE_ID][at := Wrap(id / 256)][at + 1 := Wrap(id)]
    else b[MESSAGE_ID_AT := Wrap(id)]
  }

  /** XsMessage_getDataSizeSafe: the declared data size, 0 for an absent buffer, a buffer
      shorter than the header struct, or one too short for the extended length bytes.
      It does not range-check the extended length and does not compare it with |b|. */
  function SafeDataSize(b: seq<byte>): (size: nat)
    ensures size < 0x1_0000
  {
    if |b| < HEADER_STRUCT_SIZE then 0
    else if b[LENGTH_AT] == XS_EXTLENCODE then
      if |b| >= HEADER_STRUCT_SIZE - 1 + 2 then Be16(b[PAYLOAD_AT], b[PAYLOAD_AT + 1]) else 0
    else b[LENGTH_AT] as nat
  }

  /** XsMessage_dataSize: SafeDataSize without the extended id bytes, subtracted only when
      there are at least two. */
  function DataSize(b: seq<byte>): (size: nat)
    requires |b| == 0 || |b| > MESSAGE_ID_AT
    ensures |b| == 0 ==> size == 0
    ensures |b| > 0 ==> size <= SafeDataSize(b) <= size + 2
  {
    if |b| == 0 then 0
    else
      var dataSize := SafeDataSize(b);
      if b[MESSAGE_ID_AT] == XMID_EXTENDED_MESSAGE_ID && dataSize >= 2 then dataSize - 2 else dataSize
  }

  /** XsMessage_getTotalMessageSize: SafeDataSize plus the header and checksum bytes. */
  function TotalSize(b: seq<byte>): (total: nat)
    requires |b| == 0 || |b| > LENGTH_AT
    ensures |b| == 0 ==> total == 0
    ensures |b| > 0 ==> total - SafeDataSize(b) in {XS_LEN_MSGHEADERCS, XS_LEN_MSGEXTHEADERCS}
  {
    if |b| == 0 then 0
    else if b[LENGTH_AT] != XS_EXTLENCODE then SafeDataSize(b) + XS_LEN_MSGHEADERCS
    else SafeDataSize(b) + XS_LEN_MSGEXTHEADERCS
  }

  /** XsMessage_messageId: XMID_INVALID_MESSAGE for an absent buffer. */
  function MessageId(b: seq<byte>): (id: nat)
    requires |b| == 0 || IdReadable(b)
    ensures id <= MAX_MESSAGE_ID
  {
    if |b| == 0 then XMID_INVALID_MESSAGE else HeaderMessageId(b)
  }

  /** The checksum address of updateChecksumAddress: data pointer plus payload size. */
  function ChecksumPos(b: seq<byte>): (pos: nat)
    requires HeaderReadable(b)
    ensures PAYLOAD_AT <= pos <= PAYLOAD_AT + 4 + XS_MAXMSGLEN
  {
    HeaderDataPtr(b) + HeaderPayloadSize(b)
  }

  /** The bytes computeChecksum reads exist: indices 1 up to TotalSize - 2. */
  predicate ChecksumReadable(b: seq<byte>)
  {
    |b| > LENGTH_AT && TotalSize(b) <= |b| + 1
  }

  /** XsMessage_computeChecksum: minus the byte sum of indices 1 through TotalSize - 2. */
  function Checksum(b: seq<byte>): (cs: byte)
    requires ChecksumReadable(b)
    ensures Wrap(Total(b[1..TotalSize(b) - 1]) + cs as int) == 0
  {
    NegByteSumUnique(b[1..TotalSize(b) - 1], NegByteSum(b[1..TotalSize(b) - 1]));
    NegByteSum(b[1..TotalSize(b) - 1])
  }

  /** XsMessage_isChecksumOk: the byte at the checksum address equals computeChecksum. */
  predicate ChecksumOk(b: seq<byte>)
    requires HeaderReadable(b) && ChecksumReadable(b) && ChecksumPos(b) < |b|
    ensures ChecksumOk(b) <==> Wrap(Total(b[1..TotalSize(b) - 1]) + b[ChecksumPos(b)] as int) == 0
  {
    NegByteSumUnique(b[1..TotalSize(b) - 1], b[ChecksumPos(b)]);
    b[ChecksumPos(b)] == Checksum(b)
  }

  /** XsMessage_empty: no buffer, or message id 0 on the master bus id. */
  predicate Empty(b: seq<byte>)
    requires |b| == 0 || |b| > MESSAGE_ID_AT
  {
    |b| == 0 || (b[MESSAGE_ID_AT] == 0 && b[BUS_ID_AT] == XS_BID_MASTER)
  }

  /** The condition a read needs: the length covers the whole message as declared and the
      declared data size is at most XS_MAXMSGLEN. */
  predicate WellFormed(b: seq<byte>)
  {
    |b| >= HEADER_STRUCT_SIZE && |b| == TotalSize(b) && SafeDataSize(b) <= XS_MAXMSGLEN
  }

  /** A well-formed buffer laid out as constructSized lays it out: an extended length only
      for sizes from 255 on, and an extended id byte only with its two id bytes holding an
      id above 0xFF. */
  predicate Canonical(b: seq<byte>)
  {
    WellFormed(b)
    && (b[LENGTH_AT] == XS_EXTLENCODE ==> SafeDataSize(b) >= 255)
    && (b[MESSAGE_ID_AT] == XMID_EXTENDED_MESSAGE_ID ==> SafeDataSize(b) >= 2)
    && HeaderSpans(b)
    && (b[MESSAGE_ID_AT] == XMID_EXTENDED_MESSAGE_ID ==> HeaderMessageId(b) > 0xFF)
  }

  /** On a canonical buffer the range-checked header reader and the bounds-checked reader
      agree, and the derived checksum address is the last byte. */
  lemma CanonicalReaders(b: seq<byte>)
    requires Canonical(b)
    ensures HeaderReadable(b) && HeaderDataSize(b) == SafeDataSize(b)
    ensures DataSize(b) == HeaderPayloadSize(b)
    ensures HeaderDataPtr(b) + HeaderPayloadSize(b) == |b| - 1
    ensures ChecksumPos(b) == |b| - 1
    ensures ChecksumReadable(b) && TotalSize(b) == |b|
    ensures ChecksumOk(b) <==> b[|b| - 1] == NegByteSum(b[1..|b| - 1])
  {
  }

  /** The two data-size readers disagree exactly on an extended length that is neither 0
      nor in [255, XS_MAXMSGLEN]: XsMessageHeader_dataSize reads it as 0,
      getDataSizeSafe returns it unchanged. */
  lemma ReadersAgree(b: seq<byte>)
    requires HeaderReadable(b) && |b| >= HEADER_STRUCT_SIZE
    ensures HeaderDataSize(b) == SafeDataSize(b) <==>
      || b[LENGTH_AT] != XS_EXTLENCODE
      || Be16(b[PAYLOAD_AT], b[PAYLOAD_AT + 1]) == 0
      || 255 <= Be16(b[PAYLOAD_AT], b[PAYLOAD_AT + 1]) <= XS_MAXMSGLEN
  {
  }

  /** getDataSizeSafe never compares the declared size with the buffer length: a buffer
      of just the header struct can declare 200 data bytes, and XsMessage_dataSize and
      getTotalMessageSize report them. */
  lemma DeclaredSizeUnchecked()
    ensures var b: seq<byte> := [XS_PREAMBLE, XS_BID_MASTER, 0x10, 200, 0];
      DataSize(b) == 200 && TotalSize(b) == 205 && |b| == 5 && !WellFormed(b)
  {
  }
}
