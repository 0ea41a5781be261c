/** Constants of the Xbus wire format and the byte positions of the XsMessageHeader
    fields. The header files that declare them (xsmessage.h, xsbusid.h,
    xsxbusmessageid.h, xsdataidentifier.h) are not part of this model; every value used
    by the model is pinned here and nowhere else. */
module Xbus {
  import opened Bytes

  /** First byte of every message. */
  const XS_PREAMBLE: byte := 0xFA
  /** Bus id of the master device; constructSized writes it. */
  const XS_BID_MASTER: byte := 0xFF
  /** Length-byte sentinel: two big-endian length bytes follow. */
  const XS_EXTLENCODE: byte := 0xFF
  /** Message-id sentinel: a two-byte big-endian message id is stored ahead of the payload.
      Its numeric value is not known to this model; the model only relies on it being a
      one-byte id different from 0. */
  const XMID_EXTENDED_MESSAGE_ID: byte := 0xFE
  /** Message id reported when the extended id bytes are missing (value chosen for the model). */
  const XMID_INVALID_MESSAGE: nat := 0xFFFF
  /** Header plus checksum length with a one-byte length field. */
  const XS_LEN_MSGHEADERCS: nat := 5
  /** Header plus checksum length with the extended length field. */
  const XS_LEN_MSGEXTHEADERCS: nat := 7
  /** Largest data size an extended length may declare. */
  const XS_MAXMSGLEN: nat := 8192
  /** Largest message id an XsXbusMessageId can hold. */
  const MAX_MESSAGE_ID: nat := 0xFFFF

  /** Byte positions of the XsMessageHeader fields. */
  const PREAMBLE_AT: nat := 0
  const BUS_ID_AT: nat := 1
  const MESSAGE_ID_AT: nat := 2
  const LENGTH_AT: nat := 3
  /** m_payload: the extended length, extended id and data start here. */
  const PAYLOAD_AT: nat := 4
  /** sizeof(XsMessageHeader): the four fixed fields and m_payload[1]. */
  const HEADER_STRUCT_SIZE: nat := 5

  /** XsDataIdentifier sub-format field (low two bits) and its four values. */
  const XDI_SUB_FORMAT_MASK: bv16 := 0x0003
  const XDI_SUB_FORMAT_FLOAT: bv16 := 0x0000
  const XDI_SUB_FORMAT_FP1220: bv16 := 0x0001
  const XDI_SUB_FORMAT_FP1632: bv16 := 0x0002
  const XDI_SUB_FORMAT_DOUBLE: bv16 := 0x0003
}
