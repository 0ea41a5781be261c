/** A message as its fields, and the wire image constructSized and the editing
    operations give it: preamble, bus id, id byte, length byte, optional extended length,
    optional extended id, payload, checksum. Decode reads a canonical buffer back with the
    header readers of xsmessage.c. */
module Frames {
  import opened Bytes
  import opened Xbus
  import opened Header

  datatype Frame = Frame(preamble: byte, busId: byte, messageId: nat, payload: seq<byte>, checksum: byte)

  /** Two extended id bytes are stored for ids above 0xFF. */
  function IdExtra(id: nat): nat
  {
    if id > 0xFF then 2 else 0
  }

  /** The size the length field declares: the payload plus any extended id bytes. */
  function DataLen(f: Frame): nat
  {
    |f.payload| + IdExtra(f.messageId)
  }

  /** A frame the wire format can carry unambiguously: a 16-bit id that is not the id
      sentinel itself, and a declared size within XS_MAXMSGLEN. */
  predicate ValidFrame(f: Frame)
  {
    f.messageId <= MAX_MESSAGE_ID && f.messageId != XMID_EXTENDED_MESSAGE_ID as nat && DataLen(f) <= XS_MAXMSGLEN
  }

  function IdByte(id: nat): byte
  {
    if id > 0xFF then XMID_EXTENDED_MESSAGE_ID else Wrap(id)
  }

  /** The length byte, preceded by the sentinel and followed by two big-endian bytes from
      255 on (xsmessage.c:337-345). */
  function LengthField(dataLen: nat): seq<byte>
  {
    if dataLen < 255 then [Wrap(dataLen)] else [XS_EXTLENCODE, Wrap(dataLen / 256), Wrap(dataLen)]
  }

  /** The two big-endian extended id bytes (xsmessage.c:348-354). */
  function IdField(id: nat): seq<byte>
  {
    if id > 0xFF then [Wrap(id / 256), Wrap(id)] else []
  }

  function Head(f: Frame): seq<byte>
  {
    [f.preamble, f.busId, IdByte(f.messageId)] + LengthField(DataLen(f)) + IdField(f.messageId)
  }

  /** Index of the first payload byte in the wire image. */
  function PayloadStart(f: Frame): nat
  {
    |Head(f)|
  }

  function Encode(f: Frame): seq<byte>
  {
    Head(f) + f.payload + [f.checksum]
  }

  /** The bytes the checksum covers: everything but the preamble and the checksum itself. */
  function Covered(f: Frame): seq<byte>
  {
    Head(f)[1..] + f.payload
  }

  function CorrectChecksum(f: Frame): byte
  {
    NegByteSum(Covered(f))
  }

  predicate Sealed(f: Frame)
  {
    f.checksum == CorrectChecksum(f)
  }

  /** The frame with its checksum recomputed (recomputeChecksum). */
  function Seal(f: Frame): Frame
  {
    f.(checksum := CorrectChecksum(f))
  }

  /** The head after the preamble and bus id: id byte, length field and extended id,
      fixed by the id and the declared size. */
  function HeadTail(id: nat, dataLen: nat): seq<byte>
  {
    [IdByte(id)] + LengthField(dataLen) + IdField(id)
  }

  /** The checksum a frame needs, as the sum of its bus id, head tail and payload. */
  lemma CorrectChecksumValue(f: Frame)
    ensures Covered(f) == [f.busId] + HeadTail(f.messageId, DataLen(f)) + f.payload
    ensures CorrectChecksum(f)
         == Wrap(-(f.busId as int + Total(HeadTail(f.messageId, DataLen(f))) + Total(f.payload)))
  {
    var t := HeadTail(f.messageId, DataLen(f));
    assert Covered(f) == [f.busId] + t + f.payload;
    TotalAppend([f.busId] + t, f.payload);
    TotalAppend([f.busId], t);
    assert [f.busId][..0] == [];
  }

  /** The fields of a canonical buffer, read with the header readers. */
  function Decode(b: seq<byte>): Frame
    requires Canonical(b)
  {
    CanonicalReaders(b);
    Frame(b[PREAMBLE_AT], b[BUS_ID_AT], HeaderMessageId(b), b[HeaderDataPtr(b)..ChecksumPos(b)], b[|b| - 1])
  }

  lemma PayloadStartValue(f: Frame)
    ensures PayloadStart(f) == PAYLOAD_AT + (if DataLen(f) < 255 then 0 else 2) + IdExtra(f.messageId)
    ensures |Encode(f)| == PayloadStart(f) + |f.payload| + 1
  {
  }

  /** Where each field sits in the wire image. */
  lemma EncodeLayout(f: Frame)
    requires ValidFrame(f)
    ensures var e := Encode(f);
      && |e| == PayloadStart(f) + |f.payload| + 1
      && e[PREAMBLE_AT] == f.preamble && e[BUS_ID_AT] == f.busId
      && e[MESSAGE_ID_AT] == IdByte(f.messageId)
      && (DataLen(f) < 255 ==> e[LENGTH_AT] as nat == DataLen(f))
      && (DataLen(f) >= 255 ==> e[LENGTH_AT] == XS_EXTLENCODE && Be16(e[PAYLOAD_AT], e[PAYLOAD_AT + 1]) == DataLen(f))
      && (f.messageId > 0xFF ==> Be16(e[PayloadStart(f) - 2], e[PayloadStart(f) - 1]) == f.messageId)
      && e[PayloadStart(f)..PayloadStart(f) + |f.payload|] == f.payload
      && e[|e| - 1] == f.checksum
  {
    var e := Encode(f);
    var n := DataLen(f);
    if n >= 255 {
      assert n / 256 < 256;
      assert Be16(Wrap(n / 256), Wrap(n)) == n;
    }
    if f.messageId > 0xFF {
      assert Be16(Wrap(f.messageId / 256), Wrap(f.messageId)) == f.messageId;
    }
    assert e[PayloadStart(f)..PayloadStart(f) + |f.payload|] == f.payload;
  }

  /** The header readers of xsmessage.c recover every field of an encoded frame, and the
      encoding is canonical. */
  lemma ReadEncoded(f: Frame)
    requires ValidFrame(f)
    ensures var e := Encode(f);
      && Canonical(e)
      && SafeDataSize(e) == DataLen(f) && HeaderDataSize(e) == DataLen(f)
      && DataSize(e) == |f.payload| && HeaderPayloadSize(e) == |f.payload|
      && HeaderDataPtr(e) == PayloadStart(f)
      && HeaderMessageId(e) == f.messageId
      && TotalSize(e) == |e| && ChecksumPos(e) == |e| - 1
  {
    EncodeLayout(f);
    var e := Encode(f);
    assert XMID_EXTENDED_MESSAGE_ID as nat <= 0xFF;
    assert f.messageId <= 0xFF ==> e[MESSAGE_ID_AT] != XMID_EXTENDED_MESSAGE_ID;
  }

  /** Decoding an encoded frame gives the frame back. */
  lemma DecodeEncode(f: Frame)
    requires ValidFrame(f)
    ensures Canonical(Encode(f)) && Decode(Encode(f)) == f
  {
    ReadEncoded(f);
    EncodeLayout(f);
  }

  /** The declared size of a decoded buffer is the one its length field holds. */
  lemma DecodedDataLen(b: seq<byte>)
    requires Canonical(b)
    ensures DataLen(Decode(b)) == SafeDataSize(b)
  {
    CanonicalReaders(b);
  }

  /** The length field a decoded buffer encodes to is the one it holds. */
  lemma DecodedLengthField(b: seq<byte>)
    requires Canonical(b)
    ensures HeaderReadable(b) && PAYLOAD_AT + ExtLenBytes(b) <= |b|
    ensures LengthField(SafeDataSize(b)) == b[LENGTH_AT..PAYLOAD_AT + ExtLenBytes(b)]
  {
    CanonicalReaders(b);
    var ds := SafeDataSize(b);
    if b[LENGTH_AT] == XS_EXTLENCODE {
      Be16Split(b[PAYLOAD_AT], b[PAYLOAD_AT + 1], ds);
    } else {
      assert b[LENGTH_AT..PAYLOAD_AT] == [b[LENGTH_AT]];
    }
  }

  /** The id byte and extended id bytes a decoded buffer encodes to are the ones it
      holds. */
  lemma DecodedIdFields(b: seq<byte>)
    requires Canonical(b)
    ensures HeaderReadable(b) && PAYLOAD_AT + ExtLenBytes(b) <= HeaderDataPtr(b) <= |b|
    ensures IdByte(HeaderMessageId(b)) == b[MESSAGE_ID_AT]
    ensures IdField(HeaderMessageId(b)) == b[PAYLOAD_AT + ExtLenBytes(b)..HeaderDataPtr(b)]
  {
    CanonicalReaders(b);
    var id := HeaderMessageId(b);
    var at := PAYLOAD_AT + ExtLenBytes(b);
    if b[MESSAGE_ID_AT] == XMID_EXTENDED_MESSAGE_ID {
      Be16Split(b[at], b[at + 1], id);
    } else {
      assert b[at..HeaderDataPtr(b)] == [];
    }
  }

  /** The header of a canonical buffer is the head its decoded fields encode to. */
  lemma HeadOfDecoded(b: seq<byte>)
    requires Canonical(b)
    ensures HeaderDataPtr(b) <= |b| && Head(Decode(b)) == b[..HeaderDataPtr(b)]
  {
    DecodedDataLen(b);
    DecodedLengthField(b);
    DecodedIdFields(b);
    var at := PAYLOAD_AT + ExtLenBytes(b);
    var ptr := HeaderDataPtr(b);
    assert b[..ptr] == [b[PREAMBLE_AT], b[BUS_ID_AT], b[MESSAGE_ID_AT]] + b[LENGTH_AT..at] + b[at..ptr];
  }

  /** Encoding the fields of a canonical buffer gives the buffer back. */
  lemma EncodeDecode(b: seq<byte>)
    requires Canonical(b)
    ensures ValidFrame(Decode(b)) && Encode(Decode(b)) == b
  {
    CanonicalReaders(b);
    DecodedValid(b);
    HeadOfDecoded(b);
    SplitAt(b, HeaderDataPtr(b));
  }

  /** The fields of a canonical buffer make a frame the wire format can carry. */
  lemma DecodedValid(b: seq<byte>)
    requires Canonical(b)
    ensures ValidFrame(Decode(b))
  {
    DecodedDataLen(b);
  }

  /** A buffer is its bytes before `p`, those from `p` up to its last, and its last. */
  lemma SplitAt(b: seq<byte>, p: nat)
    requires p < |b|
    ensures b == b[..p] + b[p..|b| - 1] + [b[|b| - 1]]
  {
  }

  /** The covered bytes are the wire image without its first and last byte. */
  lemma CoveredBytes(f: Frame)
    ensures Covered(f) == Encode(f)[1..|Encode(f)| - 1]
  {
  }

  /** isChecksumOk on an encoded frame holds exactly when the frame is sealed. */
  lemma ChecksumOkIffSealed(f: Frame)
    requires ValidFrame(f)
    ensures var e := Encode(f);
      && HeaderReadable(e) && ChecksumReadable(e) && ChecksumPos(e) < |e|
      && Checksum(e) == CorrectChecksum(f)
      && (ChecksumOk(e) <==> Sealed(f))
  {
    ReadEncoded(f);
    CoveredBytes(f);
  }

  /** A sealed message is one whose bytes from the bus id through the checksum sum to
      zero modulo 256. */
  lemma SealedIffZeroSum(f: Frame)
    ensures Sealed(f) <==> ByteSum(Encode(f)[1..]) == 0
  {
    CoveredBytes(f);
    assert Encode(f)[1..] == Covered(f) + [f.checksum];
    TotalAppend(Covered(f), [f.checksum]);
    assert Total([f.checksum]) == f.checksum as nat by {
      assert [f.checksum][..0] == [];
    }
    NegByteSumUnique(Covered(f), f.checksum);
  }

  /** Changing one payload byte of a sealed frame makes the checksum fail. */
  lemma CorruptionDetected(f: Frame, i: nat, v: byte)
    requires Sealed(f) && i < |f.payload| && v != f.payload[i]
    ensures !Sealed(f.(payload := f.payload[i := v]))
  {
    var g := f.(payload := f.payload[i := v]);
    var h := Head(f)[1..];
    assert Head(g) == Head(f);
    assert Covered(g) == Covered(f)[|h| + i := v];
    TotalUpdate(Covered(f), |h| + i, v);
  }
  /** Writing the bus id and then the preamble byte of an encoded frame. */
  lemma EncodeSetAddress(f: Frame, preamble: byte, busId: byte)
    ensures Encode(f)[BUS_ID_AT := busId][PREAMBLE_AT := preamble]
         == Encode(f.(preamble := preamble, busId := busId))
  {
  }

  /** Writing the bus id byte of an encoded frame. */
  lemma EncodeSetBusId(f: Frame, busId: byte)
    ensures Encode(f)[BUS_ID_AT := busId] == Encode(f.(busId := busId))
  {
  }

  /** Writing one payload byte of an encoded frame. */
  lemma EncodeSetPayloadByte(f: Frame, i: nat, v: byte)
    requires i < |f.payload|
    ensures PayloadStart(f) + i < |Encode(f)|
    ensures Encode(f)[PayloadStart(f) + i := v] == Encode(f.(payload := f.payload[i := v]))
  {
    var g := f.(payload := f.payload[i := v]);
    assert Head(g) == Head(f);
  }

  /** Writing the checksum byte of an encoded frame. */
  lemma EncodeSetChecksum(f: Frame, v: byte)
    ensures Encode(f)[|Encode(f)| - 1 := v] == Encode(f.(checksum := v))
  {
  }

  /** recomputeChecksum on a canonical buffer seals its fields. */
  lemma RecomputeSeals(b: seq<byte>)
    requires Canonical(b)
    ensures HeaderReadable(b) && ChecksumReadable(b) && ChecksumPos(b) == |b| - 1
    ensures b[ChecksumPos(b) := Checksum(b)] == Encode(Seal(Decode(b)))
  {
    CanonicalReaders(b);
    EncodeDecode(b);
    var f := Decode(b);
    ChecksumOkIffSealed(f);
    EncodeSetChecksum(f, CorrectChecksum(f));
  }

  /** setMessageId in place: rewriting the id of an encoded frame with an id of the same
      width gives the encoding of the frame with the new id. */
  lemma WriteIdInPlace(f: Frame, id: nat)
    requires ValidFrame(f) && id <= MAX_MESSAGE_ID && id != XMID_EXTENDED_MESSAGE_ID as nat
    requires (f.messageId > 0xFF) == (id > 0xFF)
    ensures HeaderReadable(Encode(f))
    ensures id > 0xFF ==> |Encode(f)| >= PAYLOAD_AT + ExtLenBytes(Encode(f)) + 2
    ensures WriteId(Encode(f), id) == Encode(f.(messageId := id))
  {
    ReadEncoded(f);
    EncodeLayout(f);
    var e := Encode(f);
    var g := f.(messageId := id);
    assert DataLen(g) == DataLen(f);
    if id > 0xFF {
      var at := PAYLOAD_AT + ExtLenBytes(e);
      assert at == PayloadStart(f) - 2;
      assert Head(g) == Head(f)[MESSAGE_ID_AT := XMID_EXTENDED_MESSAGE_ID][at := Wrap(id / 256)][at + 1 := Wrap(id)];
    } else {
      assert Head(g) == Head(f)[MESSAGE_ID_AT := Wrap(id)];
    }
  }

  /** The widening path of setMessageId after resizeData made room for two more bytes:
      moving the payload up by two and writing the id gives the encoding with the wide id. */
  lemma WidenBytes(r: Frame, id: nat)
    requires ValidFrame(r) && r.messageId <= 0xFF && |r.payload| >= 2
    requires 0xFF < id <= MAX_MESSAGE_ID
    ensures var e := Encode(r); var ptr := PayloadStart(r); var n := |r.payload| - 2;
      && HeaderReadable(e) && ptr + 2 + n <= |e|
      && HeaderDataPtr(e) == ptr && HeaderPayloadSize(e) == |r.payload|
      && ValidFrame(r.(messageId := id, payload := r.payload[..n]))
      && var m := Move(e, ptr, ptr + 2, n);
         HeaderReadable(m) && |m| >= PAYLOAD_AT + ExtLenBytes(m) + 2
         && WriteId(m, id) == Encode(r.(messageId := id, payload := r.payload[..n]))
  {
    ReadEncoded(r);
    var e, ptr, n := Encode(r), PayloadStart(r), |r.payload| - 2;
    assert |e| == ptr + |r.payload| + 1;
    WidenMoved(r, id, e, ptr, n, Move(e, ptr, ptr + 2, n));
  }

  /** The moved image of WidenBytes, with the encoding, payload position, kept length and
      moved bytes given by name. */
  lemma WidenMoved(r: Frame, id: nat, e: seq<byte>, ptr: nat, n: nat, m: seq<byte>)
    requires ValidFrame(r) && r.messageId <= 0xFF && |r.payload| >= 2
    requires 0xFF < id <= MAX_MESSAGE_ID
    requires e == Encode(r) && ptr == PayloadStart(r) && n == |r.payload| - 2
    requires ptr + 2 + n <= |e| && m == Move(e, ptr, ptr + 2, n)
    ensures ValidFrame(r.(messageId := id, payload := r.payload[..n]))
    ensures HeaderReadable(m) && |m| >= PAYLOAD_AT + ExtLenBytes(m) + 2
    ensures WriteId(m, id) == Encode(r.(messageId := id, payload := r.payload[..n]))
  {
    ReadEncoded(r);
    var p := r.payload[..n];
    var h := Head(r);
    var g := r.(messageId := id, payload := p);
    assert DataLen(g) == DataLen(r);
    MoveUpTwo(h, r.payload, r.checksum, n);
    assert m[LENGTH_AT] == e[LENGTH_AT];
    assert PAYLOAD_AT + ExtLenBytes(m) == ptr;
    assert Head(g) == h[MESSAGE_ID_AT := XMID_EXTENDED_MESSAGE_ID] + [Wrap(id / 256), Wrap(id)];
  }

  /** The narrowing path of setMessageId: moving the payload down over the two id bytes
      and writing the one-byte id gives the encoding of a frame with the narrow id, the
      payload and the two bytes left behind at its end, under the same declared size. */
  lemma NarrowBytes(f: Frame, id: nat)
    requires ValidFrame(f) && f.messageId > 0xFF
    requires id <= 0xFF && id != XMID_EXTENDED_MESSAGE_ID as nat
    ensures var e := Encode(f); var ptr := PayloadStart(f); var n := |f.payload|;
      && HeaderReadable(e) && ptr >= 2 && ptr + n <= |e|
      && HeaderDataPtr(e) == ptr && HeaderPayloadSize(e) == n
      && var m := Move(e, ptr, ptr - 2, n);
         var tail := e[ptr - 2 + n..ptr + n];
         && HeaderReadable(m)
         && ValidFrame(f.(messageId := id, payload := f.payload + tail))
         && WriteId(m, id) == Encode(f.(messageId := id, payload := f.payload + tail))
  {
    ReadEncoded(f);
    NarrowWrite(f, id);
  }

  /** The moved image of NarrowBytes is readable and writing the narrow id into it gives
      the encoding of the narrowed frame. */
  lemma NarrowWrite(f: Frame, id: nat)
    requires ValidFrame(f) && f.messageId > 0xFF
    requires id <= 0xFF && id != XMID_EXTENDED_MESSAGE_ID as nat
    ensures var e := Encode(f); var ptr := PayloadStart(f); var n := |f.payload|;
      && ptr >= PAYLOAD_AT + 2 && ptr + n < |e|
      && var m := Move(e, ptr, ptr - 2, n);
         var g := f.(messageId := id, payload := f.payload + e[ptr - 2 + n..ptr + n]);
         && DataLen(g) == DataLen(f)
         && HeaderReadable(m)
         && WriteId(m, id) == Encode(g)
  {
    var e := Encode(f);
    var ptr := PayloadStart(f);
    var n := |f.payload|;
    var h := Head(f);
    var tail := e[ptr - 2 + n..ptr + n];
    var g := f.(messageId := id, payload := f.payload + tail);
    var m := Move(e, ptr, ptr - 2, n);
    MoveDownTwo(h, f.payload, f.checksum);
    NarrowHead(f, g);
    UpdateFront(h[..ptr - 2], f.payload, tail, f.checksum, MESSAGE_ID_AT, Wrap(id));
    assert m[LENGTH_AT] == e[LENGTH_AT];
  }


  /** The head of a frame with a one-byte id is the head of the same frame with a wide id
      and the same declared size, without its two extended id bytes and with the new id
      byte. */
  lemma NarrowHead(f: Frame, g: Frame)
    requires f.messageId > 0xFF && g.messageId <= 0xFF && DataLen(g) == DataLen(f)
    requires g.preamble == f.preamble && g.busId == f.busId
    ensures |Head(f)| >= PAYLOAD_AT + 2
    ensures Head(g) == Head(f)[..|Head(f)| - 2][MESSAGE_ID_AT := IdByte(g.messageId)]
  {
  }

  /** Updating a byte in the head part of a wire image. */
  lemma UpdateFront(a: seq<byte>, q: seq<byte>, t: seq<byte>, c: byte, i: nat, v: byte)
    requires i < |a|
    ensures (a + q + t + [c])[i := v] == a[i := v] + (q + t) + [c]
  {
  }
  /** memmove of the first `n` payload bytes two places up, over the wire image. */
  lemma MoveUpTwo(h: seq<byte>, q: seq<byte>, c: byte, n: nat)
    requires |q| == n + 2
    ensures Move(h + q + [c], |h|, |h| + 2, n) == h + q[..2] + q[..n] + [c]
  {
    var e := h + q + [c];
    assert e[..|h| + 2] == h + q[..2];
    assert e[|h|..|h| + n] == q[..n];
    assert e[|h| + 2 + n..] == [c];
  }

  /** memmove of the payload two places down over the last two head bytes: the two bytes
      it leaves behind follow it. */
  lemma MoveDownTwo(h: seq<byte>, q: seq<byte>, c: byte)
    requires |h| >= 2
    ensures var e := h + q + [c]; var ptr := |h|;
      Move(e, ptr, ptr - 2, |q|) == h[..ptr - 2] + q + e[ptr - 2 + |q|..ptr + |q|] + [c]
  {
    var e := h + q + [c];
    var ptr := |h|;
    assert e == h[..ptr - 2] + h[ptr - 2..] + q + [c];
    assert e[..ptr - 2] == h[..ptr - 2];
    assert e[ptr..ptr + |q|] == q;
    assert e[ptr - 2 + |q|..] == e[ptr - 2 + |q|..ptr + |q|] + [c];
  }

  /** One step of a byte-by-byte copy into the payload of an encoded frame: byte `v`
      written at wire position `pos`, just past the bytes already copied. */
  lemma EncodeSpliceStep(f: Frame, at: nat, piece: seq<byte>, v: byte, pos: nat)
    requires at + |piece| < |f.payload| && pos == PayloadStart(f) + at + |piece|
    ensures pos < |Encode(f.(payload := Splice(f.payload, at, piece)))|
    ensures Encode(f.(payload := Splice(f.payload, at, piece)))[pos := v]
         == Encode(f.(payload := Splice(f.payload, at, piece + [v])))
  {
    var g := f.(payload := Splice(f.payload, at, piece));
    assert Head(g) == Head(f);
    EncodeSetPayloadByte(g, at + |piece|, v);
    assert g.payload[at + |piece| := v] == Splice(f.payload, at, piece + [v]);
  }
  /** Overwriting a run of payload bytes in the wire image. */
  lemma EncodeSplicePayload(f: Frame, at: nat, piece: seq<byte>)
    requires at + |piece| <= |f.payload|
    ensures PayloadStart(f) + at + |piece| <= |Encode(f)|
    ensures Splice(Encode(f), PayloadStart(f) + at, piece) == Encode(f.(payload := Splice(f.payload, at, piece)))
  {
    var g := f.(payload := Splice(f.payload, at, piece));
    assert Head(g) == Head(f);
    var a := Splice(Encode(f), PayloadStart(f) + at, piece);
    assert forall i :: 0 <= i < |a| ==> a[i] == Encode(g)[i];
  }

  /** The payload bytes sit right after the head in the wire image. */
  lemma EncodePayloadSlice(f: Frame, from: nat, to: nat)
    requires from <= to <= |f.payload|
    ensures PayloadStart(f) + to < |Encode(f)|
    ensures Encode(f)[PayloadStart(f) + from..PayloadStart(f) + to] == f.payload[from..to]
  {
    var e := Encode(f);
    var h := Head(f);
    assert e == h + f.payload + [f.checksum];
    assert e[|h| + from..|h| + to] == f.payload[from..to];
  }
  /** The header readers find the payload of an encoded frame where the encoding put it. */
  lemma PayloadAccess(f: Frame, offset: nat, len: nat)
    requires ValidFrame(f) && offset + len <= |f.payload|
    ensures HeaderReadable(Encode(f)) && HeaderDataPtr(Encode(f)) == PayloadStart(f)
    ensures PayloadStart(f) + offset + len < |Encode(f)|
    ensures Encode(f)[PayloadStart(f) + offset..PayloadStart(f) + offset + len] == f.payload[offset..offset + len]
  {
    ReadEncoded(f);
    EncodePayloadSlice(f, offset, offset + len);
  }
  /** What the methods of a message read back from a buffer encoding `f`. */
  lemma ReadBack(f: Frame)
    requires ValidFrame(f)
    ensures Canonical(Encode(f)) && Decode(Encode(f)) == f
    ensures DataSize(Encode(f)) == |f.payload| && HeaderPayloadSize(Encode(f)) == |f.payload|
    ensures HeaderMessageId(Encode(f)) == f.messageId
  {
    ReadEncoded(f);
    DecodeEncode(f);
  }

  /** XsMessage_empty on an encoded frame: message id 0 on the master bus id. */
  lemma EmptyEncoded(f: Frame)
    requires ValidFrame(f)
    ensures Empty(Encode(f)) <==> f.messageId == 0 && f.busId == XS_BID_MASTER
  {
    EncodeLayout(f);
  }
}
