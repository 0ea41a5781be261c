/** XsMessage: a raw Xbus message buffer (m_message) and the auto-checksum flag
    (m_autoUpdateChecksum). The checksum address (m_checksum) is not stored: it is always
    ChecksumPos(data), the position updateChecksumAddress derives from the header. An
    absent buffer is the empty sequence. Each editing method is proved to leave the wire
    image of the frame-level operation of module Edits. */
module Messages {
  import opened Bytes
  import opened Xbus
  import opened Header
  import opened Frames
  import opened Edits
  import opened Values
  import opened Hex

  /** The fields of a message about to be edited by setBusId or setMessageId, which first
      construct an empty message when there is no buffer. */
  function Constructed(b: seq<byte>): Frame
    requires |b| == 0 || Canonical(b)
  {
    if |b| == 0 then Sized(0, 0) else Decode(b)
  }

  class Message {
    var data: seq<byte>
    var autoChecksum: bool

    /** XsMessage_computeChecksum (xsmessage.c:1017-1027): minus each byte from index 1 up
        to the total message size minus two, in an 8-bit accumulator. */
    method ComputeChecksum() returns (cs: byte)
      requires ChecksumReadable(data)
      ensures cs == Checksum(data)
    {
      var msgSize := TotalSize(data) - 1;
      cs := 0;
      var i := 1;
      while i < msgSize
        invariant 1 <= i <= msgSize
        invariant cs == NegByteSum(data[1..i])
      {
        assert data[1..i + 1][..i - 1] == data[1..i];
        WrapShift(-(Total(data[1..i]) as int), -(data[i] as int));
        cs := Wrap(cs as int - data[i] as int);
        i := i + 1;
      }
    }

    /** XsMessage_recomputeChecksum (xsmessage.c:1031-1035): the computed checksum stored at
        the checksum address. */
    method RecomputeChecksum()
      modifies this
      requires HeaderReadable(data) && ChecksumReadable(data) && ChecksumPos(data) < |data|
      ensures data == old(data)[ChecksumPos(old(data)) := Checksum(old(data))]
      ensures autoChecksum == old(autoChecksum)
    {
      var cs := ComputeChecksum();
      data := data[ChecksumPos(data) := cs];
    }

    /** XsMessage_isChecksumOk (xsmessage.c:1051-1055). */
    method IsChecksumOk() returns (ok: bool)
      requires HeaderReadable(data) && ChecksumReadable(data) && ChecksumPos(data) < |data|
      ensures ok == ChecksumOk(data)
    {
      var cs := ComputeChecksum();
      ok := data[ChecksumPos(data)] == cs;
    }

    /** XsMessage_load (xsmessage.c:389-393): the buffer becomes a copy of `src`. */
    method Load(src: seq<byte>)
      modifies this
      ensures data == src && autoChecksum == old(autoChecksum)
    {
      data := src;
    }

    /** XsMessage_copy (xsmessage.c:407-412): this message takes a copy of the buffer and
        the auto-checksum flag of `src`; `src` is not changed. */
    method Copy(src: Message)
      modifies this
      ensures data == old(src.data) && autoChecksum == old(src.autoChecksum)
      ensures src != this ==> src.data == old(src.data) && src.autoChecksum == old(src.autoChecksum)
    {
      data := src.data;
      autoChecksum := src.autoChecksum;
    }

    /** XsMessage_destruct (xsmessage.c:398-402): the buffer is released. */
    method Destruct()
      modifies this
      ensures data == [] && autoChecksum == old(autoChecksum)
    {
      data := [];
    }

    /** XsMessage_constructSized (xsmessage.c:314-360): a zeroed buffer of the total size,
        the preamble, master bus id, length field and id field written, then the checksum
        recomputed. */
    method ConstructSized(n: nat, id: nat)
      modifies this
      requires EncodableId(id) && Fits(n, id)
      ensures data == Encode(Sized(n, id))
      ensures autoChecksum == old(autoChecksum)
    {
      ghost var z := Frame(XS_PREAMBLE, XS_BID_MASTER, id, Zeros(n), 0);
      var buf := SizedBuffer(n, id);
      ReadEncoded(z);
      data := buf;
      RecomputeSeals(data);
      DecodeEncode(z);
      RecomputeChecksum();
    }

    /** The buffer constructSized fills in before its checksum is computed: zeroes, with
        the preamble, the master bus id, the length field and the id field written. */
    static method SizedBuffer(n: nat, id: nat) returns (buf: seq<byte>)
      requires EncodableId(id) && Fits(n, id)
      ensures ValidFrame(Frame(XS_PREAMBLE, XS_BID_MASTER, id, Zeros(n), 0))
      ensures buf == Encode(Frame(XS_PREAMBLE, XS_BID_MASTER, id, Zeros(n), 0))
    {
      var dataSize := if id > 0xFF then n + 2 else n;
      var msgSize := if dataSize < 255 then dataSize + XS_LEN_MSGHEADERCS else dataSize + XS_LEN_MSGEXTHEADERCS;
      buf := Zeros(msgSize);
      buf := buf[PREAMBLE_AT := XS_PREAMBLE][BUS_ID_AT := XS_BID_MASTER];
      var ptr := PAYLOAD_AT;
      if dataSize > 254 {
        buf := buf[LENGTH_AT := XS_EXTLENCODE][ptr := Wrap(dataSize / 256)][ptr + 1 := Wrap(dataSize)];
        ptr := ptr + 2;
      } else {
        buf := buf[LENGTH_AT := Wrap(dataSize)];
      }
      if id > 0xFF {
        buf := buf[MESSAGE_ID_AT := XMID_EXTENDED_MESSAGE_ID][ptr := Wrap(id / 256)][ptr + 1 := Wrap(id)];
      } else {
        buf := buf[MESSAGE_ID_AT := Wrap(id)];
      }
      ghost var z := Frame(XS_PREAMBLE, XS_BID_MASTER, id, Zeros(n), 0);
      assert ValidFrame(z);
      assert buf == Encode(z) by {
        assert Head(z) == buf[..|Head(z)|];
        assert buf == buf[..|Head(z)|] + buf[|Head(z)|..];
      }
    }

    /** The byte-by-byte copy loops of resizeData, insertData and deleteData: `count` bytes
        of `src` from `srcAt` (the ghost `piece`) written into the payload of the buffer
        encoding `f`, from `dstAt` on; `ptr` is where that payload byte sits. */
    method CopyLoop(ghost f: Frame, ptr: nat, src: seq<byte>, srcAt: nat, dstAt: nat, count: nat, ghost piece: seq<byte>)
      modifies this
      requires data == Encode(f) && ptr == PayloadStart(f) + dstAt
      requires srcAt + count <= |src| && dstAt + count <= |f.payload| && piece == src[srcAt..srcAt + count]
      ensures data == Encode(f.(payload := Splice(f.payload, dstAt, piece)))
      ensures autoChecksum == old(autoChecksum)
    {
      var i: nat := 0;
      assert Splice(f.payload, dstAt, piece[..0]) == f.payload;
      while i < count
        invariant 0 <= i <= count
        invariant data == Encode(f.(payload := Splice(f.payload, dstAt, piece[..i])))
        invariant autoChecksum == old(autoChecksum)
      {
        ghost var done := piece[..i];
        EncodeSpliceStep(f, dstAt, done, src[srcAt + i], ptr + i);
        assert done + [src[srcAt + i]] == piece[..i + 1];
        data := data[ptr + i := src[srcAt + i]];
        i := i + 1;
      }
      assert piece[..count] == piece;
    }

    /** constructSized followed by copying the old bus id and preamble, as resizeData,
        insertData and deleteData begin. */
    method ConstructFor(n: nat, id: nat, preamble: byte, busId: byte)
      modifies this
      requires EncodableId(id) && Fits(n, id)
      ensures var g := Sized(n, id).(preamble := preamble, busId := busId);
        ValidFrame(g) && g.payload == Zeros(n) && data == Encode(g)
      ensures autoChecksum == old(autoChecksum)
    {
      ConstructSized(n, id);
      ghost var s := Sized(n, id);
      SizedFacts(n, id);
      data := data[BUS_ID_AT := busId];
      data := data[PREAMBLE_AT := preamble];
      EncodeSetAddress(s, preamble, busId);
      ghost var g := s.(preamble := preamble, busId := busId);
      assert ValidFrame(g);
    }

    /** recomputeChecksum when auto-checksum is on, on a buffer encoding `g`. */
    method SealIfAuto(ghost g: Frame)
      modifies this
      requires ValidFrame(g) && data == Encode(g)
      ensures data == Encode(if autoChecksum then Seal(g) else g)
      ensures autoChecksum == old(autoChecksum)
    {
      if autoChecksum {
        DecodeEncode(g);
        RecomputeSeals(data);
        RecomputeChecksum();
      }
    }

    /** XsMessage_resizeData (xsmessage.c:1086-1120): nothing when the data size is already
        `n` or there is no buffer; otherwise a fresh message of data size `n` under the old
        id, with the old bus id and preamble and the first min(old, n) payload bytes copied
        over, its checksum recomputed with auto-checksum on. */
    method ResizeData(n: nat)
      modifies this
      requires |data| == 0 || (Canonical(data) && Fits(n, HeaderMessageId(data)))
      ensures |old(data)| == 0 ==> data == []
      ensures |old(data)| > 0 ==> data == Encode(Resize(Decode(old(data)), n, old(autoChecksum)))
      ensures autoChecksum == old(autoChecksum)
    {
      var oldSize := DataSize(data);
      if |data| == 0 {
        return;
      }
      ghost var f := Decode(data);
      var oldPtr := HeaderDataPtr(data);
      assert data == Encode(f) && oldSize == |f.payload| && oldPtr == PayloadStart(f)
          && ValidFrame(f) && HeaderMessageId(data) == f.messageId by {
        EncodeDecode(data);
        ReadEncoded(f);
      }
      if oldSize == n {
        return;
      }
      Rebuild(f, n, data, oldPtr, oldSize, HeaderMessageId(data), data[PREAMBLE_AT], data[BUS_ID_AT]);
    }

    /** The rebuilding branch of resizeData, on the old buffer `prev` encoding `f`. */
    method Rebuild(ghost f: Frame, n: nat, prev: seq<byte>, oldPtr: nat, oldSize: nat, id: nat, preamble: byte, busId: byte)
      modifies this
      requires ValidFrame(f) && prev == Encode(f) && oldPtr == PayloadStart(f) && oldSize == |f.payload|
      requires id == f.messageId && preamble == f.preamble && busId == f.busId
      requires Fits(n, id) && |f.payload| != n
      ensures data == Encode(Resize(f, n, old(autoChecksum)))
      ensures autoChecksum == old(autoChecksum)
    {
      ConstructFor(n, id, preamble, busId);
      ghost var s1 := Sized(n, id).(preamble := preamble, busId := busId);
      var count := if oldSize > n then n else oldSize;
      CopyFrom(s1, f, prev, oldPtr, 0, 0, count, f.payload[..Min(|f.payload|, n)]);
      FitBySplice(f.payload, n);
      ghost var g := s1.(payload := Fit(f.payload, n));
      assert s1.(payload := Splice(s1.payload, 0, f.payload[..Min(|f.payload|, n)])) == g;
      assert Resize(f, n, autoChecksum) == if autoChecksum then Seal(g) else g;
      SealIfAuto(g);
    }
    /** A copy loop reading payload bytes [from, from + len) of the old buffer `prev`,
        which encodes `f`, into the payload of the new message `g` from `dstAt` on. */
    method CopyFrom(ghost g: Frame, ghost f: Frame, prev: seq<byte>, oldPtr: nat, from: nat, dstAt: nat, len: nat, ghost piece: seq<byte>)
      modifies this
      requires ValidFrame(g) && data == Encode(g)
      requires prev == Encode(f) && oldPtr == PayloadStart(f)
      requires from + len <= |f.payload| && dstAt + len <= |g.payload| && piece == f.payload[from..from + len]
      ensures var h := g.(payload := Splice(g.payload, dstAt, piece));
        ValidFrame(h) && data == Encode(h)
      ensures autoChecksum == old(autoChecksum)
    {
      EncodePayloadSlice(f, from, from + len);
      var ptr := HeaderDataPtr(data) + dstAt;
      assert ptr == PayloadStart(g) + dstAt by {
        ReadEncoded(g);
      }
      CopyLoop(g, ptr, prev, oldPtr + from, dstAt, len, f.payload[from..from + len]);
    }

    /** XsMessage_insertData (xsmessage.c:1207-1257): nothing for count 0 or no buffer;
        otherwise a fresh message of data size max(old + count, offset + count) with the
        old bus id and preamble, the bytes before `offset` copied, any gap past the old end
        zeroed, and the old bytes from `offset` on copied `count` places up; the checksum
        is recomputed with auto-checksum on. */
    method InsertData(count: nat, offset: nat)
      modifies this
      requires |data| == 0 || (Canonical(data) && Fits(Max(DataSize(data) + count, offset + count), HeaderMessageId(data)))
      ensures |old(data)| == 0 ==> data == []
      ensures |old(data)| > 0 ==> data == Encode(Insert(Decode(old(data)), count, offset, old(autoChecksum)))
      ensures autoChecksum == old(autoChecksum)
    {
      if count == 0 {
        if |data| > 0 {
          EncodeDecode(data);
        }
        return;
      }
      var oldSize := DataSize(data);
      var newSize := oldSize + count;
      if newSize < offset + count {
        newSize := offset + count;
      }
      if |data| == 0 {
        return;
      }
      ghost var f := Decode(data);
      var oldPtr := HeaderDataPtr(data);
      assert data == Encode(f) && oldSize == |f.payload| && oldPtr == PayloadStart(f)
          && ValidFrame(f) && HeaderMessageId(data) == f.messageId by {
        EncodeDecode(data);
        ReadEncoded(f);
      }
      InsertRebuild(f, count, offset, newSize, data, oldPtr, oldSize, HeaderMessageId(data), data[PREAMBLE_AT], data[BUS_ID_AT]);
    }

    /** The rebuilding part of insertData, on the old buffer `prev` encoding `f`. */
    method InsertRebuild(ghost f: Frame, count: nat, offset: nat, newSize: nat, prev: seq<byte>, oldPtr: nat,
                         oldSize: nat, id: nat, preamble: byte, busId: byte)
      modifies this
      requires ValidFrame(f) && prev == Encode(f) && oldPtr == PayloadStart(f) && oldSize == |f.payload|
      requires id == f.messageId && preamble == f.preamble && busId == f.busId
      requires count > 0 && newSize == Max(oldSize + count, offset + count) && Fits(newSize, id)
      ensures data == Encode(Insert(f, count, offset, old(autoChecksum)))
      ensures autoChecksum == old(autoChecksum)
    {
      ghost var p := f.payload;
      ConstructFor(newSize, id, preamble, busId);
      ghost var g := Sized(newSize, id).(preamble := preamble, busId := busId);
      ghost var h := g.(payload := InsertBytes(p, count, offset));
      if offset <= oldSize {
        InsertWithin(g, f, count, offset, prev, oldPtr, oldSize);
      } else {
        InsertPast(g, f, count, offset, prev, oldPtr, oldSize);
      }
      InsertUnfold(f, count, offset, autoChecksum);
      assert |h.payload| == newSize;
      assert ValidFrame(h);
      SealIfAuto(h);
    }

    /** The copy loops of insertData for an offset within the old payload. */
    method InsertWithin(ghost g: Frame, ghost f: Frame, count: nat, offset: nat, prev: seq<byte>, oldPtr: nat, oldSize: nat)
      modifies this
      requires ValidFrame(g) && data == Encode(g) && g.payload == Zeros(oldSize + count)
      requires prev == Encode(f) && oldPtr == PayloadStart(f) && oldSize == |f.payload| && offset <= oldSize
      ensures data == Encode(g.(payload := InsertBytes(f.payload, count, offset)))
      ensures autoChecksum == old(autoChecksum)
    {
      ghost var head, tail := f.payload[0..offset], f.payload[offset..oldSize];
      ghost var g1 := g.(payload := Splice(g.payload, 0, head));
      var dst, len := offset + count, oldSize - offset;
      InsertWithinFrames(g, f.payload, count, offset, oldSize, g1, dst, tail);
      CopyFrom(g, f, prev, oldPtr, 0, 0, offset, head);
      if offset < oldSize {
        assert tail == f.payload[offset..offset + len];
        CopyFrom(g1, f, prev, oldPtr, offset, dst, len, tail);
      }
    }

    /** The copy and zero-fill loops of insertData for an offset past the old payload. */
    method InsertPast(ghost g: Frame, ghost f: Frame, count: nat, offset: nat, prev: seq<byte>, oldPtr: nat, oldSize: nat)
      modifies this
      requires ValidFrame(g) && data == Encode(g) && g.payload == Zeros(offset + count)
      requires prev == Encode(f) && oldPtr == PayloadStart(f) && oldSize == |f.payload| && offset > oldSize
      ensures data == Encode(g.(payload := InsertBytes(f.payload, count, offset)))
      ensures autoChecksum == old(autoChecksum)
    {
      CopyFrom(g, f, prev, oldPtr, 0, 0, oldSize, f.payload[0..oldSize]);
      ghost var g1 := g.(payload := Splice(g.payload, 0, f.payload[0..oldSize]));
      ZeroFill(g1, oldSize, offset - oldSize);
      InsertPastFrames(g, f.payload, count, offset, oldSize);
    }

    /** The zero-filling loop of insertData for the gap past the old end. */
    method ZeroFill(ghost g: Frame, at: nat, len: nat)
      modifies this
      requires ValidFrame(g) && data == Encode(g) && at + len <= |g.payload|
      ensures var h := g.(payload := Splice(g.payload, at, Zeros(len)));
        ValidFrame(h) && data == Encode(h)
      ensures autoChecksum == old(autoChecksum)
    {
      var ptr := HeaderDataPtr(data) + at;
      assert ptr == PayloadStart(g) + at by {
        ReadEncoded(g);
      }
      assert Zeros(len)[0..len] == Zeros(len);
      CopyLoop(g, ptr, Zeros(len), 0, at, len, Zeros(len));
    }
    /** XsMessage_deleteData (xsmessage.c:1264-1306) as written: nothing for count 0 or an
        offset at or past the data size; resizeData(offset) when the range reaches the end;
        otherwise a fresh message of the smaller size with the bytes before and after the
        range copied, whose checksum (with auto-checksum on) is patched by subtracting the
        new payload's byte sum from the fresh master message's checksum. */
    method DeleteData(count: nat, offset: nat)
      modifies this
      requires |data| == 0 || Canonical(data)
      ensures |old(data)| == 0 ==> data == []
      ensures |old(data)| > 0 ==> data == Encode(DeleteAsWritten(Decode(old(data)), count, offset, old(autoChecksum)))
      ensures autoChecksum == old(autoChecksum)
    {
      var oldSize := DataSize(data);
      if |data| > 0 {
        EncodeDecode(data);
      }
      if count == 0 || offset >= oldSize {
        return;
      }
      ghost var f := Decode(data);
      var oldPtr := HeaderDataPtr(data);
      assert data == Encode(f) && oldSize == |f.payload| && oldPtr == PayloadStart(f)
          && ValidFrame(f) && HeaderMessageId(data) == f.messageId by {
        ReadEncoded(f);
      }
      if offset + count >= oldSize {
        ResizeData(offset);
        return;
      }
      var newSize := oldSize - count;
      DeleteRebuild(f, count, offset, newSize, data, oldPtr, oldSize, HeaderMessageId(data), data[PREAMBLE_AT], data[BUS_ID_AT]);
    }

    /** The rebuilding branch of deleteData, on the old buffer `prev` encoding `f`. */
    method DeleteRebuild(ghost f: Frame, count: nat, offset: nat, newSize: nat, prev: seq<byte>, oldPtr: nat,
                         oldSize: nat, id: nat, preamble: byte, busId: byte)
      modifies this
      requires ValidFrame(f) && prev == Encode(f) && oldPtr == PayloadStart(f) && oldSize == |f.payload|
      requires id == f.messageId && preamble == f.preamble && busId == f.busId
      requires count > 0 && offset + count < oldSize && newSize == oldSize - count
      ensures data == Encode(DeleteAsWritten(f, count, offset, old(autoChecksum)))
      ensures autoChecksum == old(autoChecksum)
    {
      ghost var auto := autoChecksum;
      ghost var s := Sized(newSize, id);
      ghost var g := s.(preamble := preamble, busId := busId);
      ghost var h := g.(payload := DeleteBytes(f.payload, count, offset));
      assert DeleteAsWritten(f, count, offset, auto)
          == if auto then h.(checksum := Wrap(h.checksum as int - Total(h.payload))) else h;
      assert EncodableId(id) && Fits(newSize, id);
      ConstructFor(newSize, id, preamble, busId);
      DeleteCopies(g, f, count, offset, prev, oldPtr, newSize);
      assert ValidFrame(h);
      if autoChecksum {
        PatchDeleteChecksum(h, newSize);
      }
    }

    /** The two copy loops of deleteData: the bytes before the range, then those after it. */
    method DeleteCopies(ghost g: Frame, ghost f: Frame, count: nat, offset: nat, prev: seq<byte>, oldPtr: nat, newSize: nat)
      modifies this
      requires ValidFrame(g) && data == Encode(g) && g.payload == Zeros(newSize)
      requires prev == Encode(f) && oldPtr == PayloadStart(f) && offset + count < |f.payload|
      requires newSize == |f.payload| - count
      ensures data == Encode(g.(payload := DeleteBytes(f.payload, count, offset)))
      ensures autoChecksum == old(autoChecksum)
    {
      CopyFrom(g, f, prev, oldPtr, 0, 0, offset, f.payload[0..offset]);
      DeleteTail(g, f, count, offset, prev, oldPtr, newSize);
    }

    /** The second copy loop of deleteData, once the bytes before the range are in place. */
    method DeleteTail(ghost g: Frame, ghost f: Frame, count: nat, offset: nat, prev: seq<byte>, oldPtr: nat, newSize: nat)
      modifies this
      requires g.payload == Zeros(newSize) && offset + count < |f.payload| && newSize == |f.payload| - count
      requires var g1 := g.(payload := Splice(g.payload, 0, f.payload[0..offset]));
        ValidFrame(g1) && data == Encode(g1)
      requires prev == Encode(f) && oldPtr == PayloadStart(f)
      ensures data == Encode(g.(payload := DeleteBytes(f.payload, count, offset)))
      ensures autoChecksum == old(autoChecksum)
    {
      ghost var g1 := g.(payload := Splice(g.payload, 0, f.payload[0..offset]));
      CopyFrom(g1, f, prev, oldPtr, offset + count, offset, newSize - offset, f.payload[offset + count..offset + count + (newSize - offset)]);
      DeleteFrames(g, f.payload, count, offset, newSize);
    }

    /** The checksum patch of deleteData: the byte sum of the new payload subtracted from
        the checksum byte. */
    method PatchDeleteChecksum(ghost h: Frame, newSize: nat)
      modifies this
      requires ValidFrame(h) && data == Encode(h) && newSize == |h.payload|
      ensures data == Encode(h.(checksum := Wrap(h.checksum as int - Total(h.payload))))
      ensures autoChecksum == old(autoChecksum)
    {
      // the checksum byte is the last one and the payload sits right before it
      var pos := |data| - 1;
      assert PayloadStart(h) + newSize == pos && data[pos] == h.checksum && data[pos - newSize..][..newSize] == h.payload by {
        EncodeLayout(h);
      }
      var sum := ByteSumOf(data[pos - newSize..], newSize);
      assert sum == Wrap(Total(h.payload));
      WrapMinus(h.checksum as int, Total(h.payload));
      data := data[pos := Wrap(data[pos] as int - sum as int)];
      EncodeSetChecksum(h, Wrap(h.checksum as int - Total(h.payload)));
    }
    /** XsMessage_setBusId (xsmessage.c:1128-1142): an empty message is first constructed
        as `Sized(0, 0)`; with auto-checksum on, the old bus id is added to the checksum
        byte before the bus id is written and the new one subtracted after. */
    method SetBusId(busId: byte)
      modifies this
      requires |data| == 0 || Canonical(data)
      ensures data == Encode(Edits.SetBusId(Constructed(old(data)), busId, old(autoChecksum)))
      ensures autoChecksum == old(autoChecksum)
    {
      if |data| == 0 {
        ConstructSized(0, 0);
        SizedFacts(0, 0);
      } else {
        EncodeDecode(data);
      }
      WriteBusId(Constructed(old(data)), busId);
    }

    /** The checksum patches and the bus id write of setBusId, on a buffer encoding `f`. */
    method WriteBusId(ghost f: Frame, busId: byte)
      modifies this
      requires ValidFrame(f) && data == Encode(f)
      ensures data == Encode(Edits.SetBusId(f, busId, autoChecksum))
      ensures autoChecksum == old(autoChecksum)
    {
      var pos: nat;
      assert ChecksumReadable(data) && ChecksumPos(data) == |data| - 1 by {
        ReadEncoded(f);
      }
      pos := ChecksumPos(data);
      ghost var c := f.checksum as int + f.busId as int;
      if autoChecksum {
        data := data[pos := Wrap(data[pos] as int + data[BUS_ID_AT] as int)];
      }
      data := data[BUS_ID_AT := busId];
      if autoChecksum {
        data := data[pos := Wrap(data[pos] as int - busId as int)];
        WrapShift(c, -(busId as int));
      }
      EncodeSetBusId(f, busId);
      EncodeSetChecksum(f.(busId := busId), Edits.SetBusId(f, busId, autoChecksum).checksum);
    }
    /** XsMessage_setMessageId (xsmessage.c:1148-1200): an empty message is first
        constructed as `Sized(0, 0)`; an id of the width the header already has (one byte,
        or the sentinel plus two bytes) is written in place; a wider id first resizes the
        data by two bytes and moves the payload up behind the new id bytes; a narrower one
        moves the payload down over the id bytes and resizes the data back to the payload
        size. With auto-checksum on the checksum is recomputed. */
    method SetMessageId(id: nat)
      modifies this
      requires EncodableId(id)
      requires |data| == 0 || Canonical(data)
      requires |data| > 0 ==> Fits(DataSize(data), id)
      ensures data == Encode(Edits.SetMessageId(Constructed(old(data)), id, old(autoChecksum)))
      ensures autoChecksum == old(autoChecksum)
    {
      ghost var f := Constructed(data);
      ghost var auto := autoChecksum;
      if |data| == 0 {
        ConstructSized(0, 0);
        SizedFacts(0, 0);
      } else {
        EncodeDecode(data);
        ReadEncoded(f);
      }
      assert ValidFrame(f) && data == Encode(f) && Fits(|f.payload|, id);
      assert data[MESSAGE_ID_AT] == IdByte(f.messageId) by {
        EncodeLayout(f);
      }
      var extended := data[MESSAGE_ID_AT] == XMID_EXTENDED_MESSAGE_ID;
      assert extended <==> f.messageId > 0xFF;
      ghost var g: Frame;
      if (extended && id > 0xFF) || (!extended && id <= 0xFF) {
        WriteIdInPlace(f, id);
        data := WriteId(data, id);
        g := f.(messageId := id);
        assert g == Reid(f, id, auto);
      } else if id > 0xFF {
        g := WidenId(f, id);
      } else {
        g := NarrowId(f, id);
      }
      SealIfAuto(g);
    }

    /** The widening path of setMessageId: resizeData to two more bytes, the payload moved
        up by two, then the sentinel and the two id bytes written. */
    method WidenId(ghost f: Frame, id: nat) returns (ghost g: Frame)
      modifies this
      requires ValidFrame(f) && data == Encode(f) && f.messageId <= 0xFF
      requires 0xFF < id <= MAX_MESSAGE_ID && Fits(|f.payload|, id)
      ensures g == Reid(f, id, autoChecksum)
      ensures ValidFrame(g) && data == Encode(g)
      ensures autoChecksum == old(autoChecksum)
    {
      var dataLen: nat;
      var size: nat;
      assert Canonical(data) && Decode(data) == f && DataSize(data) == |f.payload|
          && HeaderPayloadSize(data) == |f.payload| && HeaderMessageId(data) == f.messageId by {
        ReadEncoded(f);
        DecodeEncode(f);
      }
      dataLen := HeaderPayloadSize(data);
      size := DataSize(data);
      var n := size + 2;
      ResizeData(n);
      ghost var r := Resize(f, n, autoChecksum);
      assert ValidFrame(r) && |r.payload| == dataLen + 2 && r.payload[..dataLen] == f.payload && r.messageId <= 0xFF by {
        ResizeFacts(f, n, autoChecksum);
      }
      MoveUp(r, id, dataLen);
      g := r.(messageId := id, payload := f.payload);
    }

    /** The memmove and id write of the widening path, on a buffer encoding `r` whose last
        two payload bytes are the room made for the id. */
    method MoveUp(ghost r: Frame, id: nat, dataLen: nat)
      modifies this
      requires ValidFrame(r) && data == Encode(r) && r.messageId <= 0xFF && |r.payload| == dataLen + 2
      requires 0xFF < id <= MAX_MESSAGE_ID
      ensures ValidFrame(r.(messageId := id, payload := r.payload[..dataLen]))
      ensures data == Encode(r.(messageId := id, payload := r.payload[..dataLen]))
      ensures autoChecksum == old(autoChecksum)
    {
      WidenBytes(r, id);
      var ptr := HeaderDataPtr(data);
      data := Move(data, ptr, ptr + 2, dataLen);
      data := WriteId(data, id);
    }

    /** The narrowing path of setMessageId: the payload moved down by two over the id
        bytes, the one-byte id written, then resizeData back to the payload size, which
        drops the two stale bytes left at the end. */
    method NarrowId(ghost f: Frame, id: nat) returns (ghost g: Frame)
      modifies this
      requires ValidFrame(f) && data == Encode(f) && f.messageId > 0xFF
      requires id <= 0xFF && id != XMID_EXTENDED_MESSAGE_ID as nat
      ensures g == Reid(f, id, autoChecksum)
      ensures ValidFrame(g) && data == Encode(g)
      ensures autoChecksum == old(autoChecksum)
    {
      NarrowBytes(f, id);
      var ptr := HeaderDataPtr(data);
      var dataLen := HeaderPayloadSize(data);
      ghost var tail := data[ptr - 2 + dataLen..ptr + dataLen];
      data := Move(data, ptr, ptr - 2, dataLen);
      data := WriteId(data, id);
      ghost var t := f.(messageId := id, payload := f.payload + tail);
      assert ValidFrame(t) && data == Encode(t);
      ReadEncoded(t);
      DecodeEncode(t);
      ResizeData(dataLen);
      ResizeFacts(t, dataLen, autoChecksum);
      ResizeIgnoresTail(f.(messageId := id), f.payload, tail, Zeros(2), autoChecksum);
      g := Resize(t, dataLen, autoChecksum);
    }
    /** XsMessage_ensureDataSize (xsmessage.c:225-229): resizeData to `offset + size` when
        the data is shorter than that. */
    method EnsureDataSize(ghost f: Frame, offset: nat, size: nat)
      modifies this
      requires ValidFrame(f) && data == Encode(f) && Fits(Max(|f.payload|, offset + size), f.messageId)
      ensures ValidFrame(Grow(f, offset + size, old(autoChecksum)))
      ensures |Grow(f, offset + size, old(autoChecksum)).payload| >= offset + size
      ensures data == Encode(Grow(f, offset + size, old(autoChecksum)))
      ensures autoChecksum == old(autoChecksum)
    {
      ReadBack(f);
      if DataSize(data) < offset + size {
        ResizeData(offset + size);
        ResizeFacts(f, offset + size, autoChecksum);
      }
    }

    /** XsMessage_updateChecksumWithValue (xsmessage.c:236-243): with auto-checksum on, the
        byte sum of the `|value|` payload bytes at `offset` is added to the checksum byte and
        that of `value` subtracted. */
    method UpdateChecksumWithValue(ghost g: Frame, value: seq<byte>, offset: nat)
      modifies this
      requires ValidFrame(g) && data == Encode(g) && offset + |value| <= |g.payload|
      ensures data == Encode(g.(checksum := if autoChecksum
                                            then Wrap(g.checksum as int + Total(g.payload[offset..offset + |value|]) - Total(value))
                                            else g.checksum))
      ensures autoChecksum == old(autoChecksum)
    {
      if !autoChecksum {
        assert g.(checksum := g.checksum) == g;
        return;
      }
      var pos: nat;
      assert ChecksumReadable(data) && ChecksumPos(data) == |data| - 1 && data[|data| - 1] == g.checksum by {
        ReadEncoded(g);
        EncodeLayout(g);
      }
      pos := ChecksumPos(data);
      ghost var prior := g.payload[offset..offset + |value|];
      var added := PayloadByteSum(g, offset, |value|);
      var taken := ByteSumOf(value, |value|);
      assert taken == Wrap(Total(value)) by {
        assert value[..|value|] == value;
      }
      ghost var c := g.checksum as int;
      var cs := data[pos];
      cs := Wrap(cs as int + added as int);
      cs := Wrap(cs as int - taken as int);
      assert cs == Wrap(c + Total(prior) - Total(value)) by {
        PatchArithmetic(c, Total(prior), Total(value));
      }
      EncodeSetChecksum(g, cs);
      data := data[pos := cs];
    }

    /** The byte sum the checksum patch reads from the payload of a buffer encoding `g`. */
    method PayloadByteSum(ghost g: Frame, offset: nat, len: nat) returns (sum: byte)
      requires ValidFrame(g) && data == Encode(g) && offset + len <= |g.payload|
      ensures sum == Wrap(Total(g.payload[offset..offset + len]))
    {
      var ptr: nat;
      assert HeaderReadable(data) && HeaderDataPtr(data) == PayloadStart(g) by {
        ReadEncoded(g);
      }
      ptr := HeaderDataPtr(data);
      assert data[ptr + offset..][..len] == g.payload[offset..offset + len] by {
        EncodePayloadSlice(g, offset, offset + len);
      }
      sum := ByteSumOf(data[ptr + offset..], len);
    }

    /** The memcpy of the setters: `bytes` copied over the payload at `offset`. */
    method CopyToPayload(ghost g: Frame, bytes: seq<byte>, offset: nat)
      modifies this
      requires ValidFrame(g) && data == Encode(g) && offset + |bytes| <= |g.payload|
      ensures data == Encode(g.(payload := Splice(g.payload, offset, bytes)))
      ensures autoChecksum == old(autoChecksum)
    {
      var ptr: nat;
      assert HeaderReadable(data) && HeaderDataPtr(data) == PayloadStart(g) by {
        ReadEncoded(g);
      }
      ptr := HeaderDataPtr(data);
      EncodeSplicePayload(g, offset, bytes);
      data := Splice(data, ptr + offset, bytes);
    }

    /** XsMessage_setEndianCorrectData (xsmessage.c:300-308): the data grown to cover the
        field, the checksum patched with the value's byte sum, the value's host bytes copied
        in and then byte-swapped in place, so the wire holds them most significant first. */
    method SetEndianCorrectData(value: seq<byte>, offset: nat)
      modifies this
      requires |value| in {1, 2, 4, 8}
      requires Canonical(data) && Fits(Max(DataSize(data), offset + |value|), HeaderMessageId(data))
      ensures data == Encode(Store(Decode(old(data)), offset, SwapEndian(value), old(autoChecksum)))
      ensures autoChecksum == old(autoChecksum)
    {
      ghost var f := Decode(data);
      assert ValidFrame(f) && data == Encode(f) && Fits(Max(|f.payload|, offset + |value|), f.messageId) by {
        EncodeDecode(data);
        ReadEncoded(f);
      }
      StoreSwapped(f, value, offset);
    }

    /** The data growth and the write of setEndianCorrectData, on a buffer encoding `f`. */
    method StoreSwapped(ghost f: Frame, value: seq<byte>, offset: nat)
      modifies this
      requires |value| in {1, 2, 4, 8}
      requires ValidFrame(f) && data == Encode(f) && Fits(Max(|f.payload|, offset + |value|), f.messageId)
      ensures data == Encode(Store(f, offset, SwapEndian(value), old(autoChecksum)))
      ensures autoChecksum == old(autoChecksum)
    {
      ghost var g := Grow(f, offset + |value|, autoChecksum);
      ghost var s := Store(f, offset, SwapEndian(value), autoChecksum);
      assert s == Patch(g, offset, SwapEndian(value), autoChecksum);
      EnsureDataSize(f, offset, |value|);
      WriteSwapped(g, value, offset);
    }

    /** The checksum patch, copy and in-place swap of setEndianCorrectData on a buffer
        encoding `g` that already covers the field. */
    method WriteSwapped(ghost g: Frame, value: seq<byte>, offset: nat)
      modifies this
      requires |value| in {1, 2, 4, 8}
      requires ValidFrame(g) && data == Encode(g) && offset + |value| <= |g.payload|
      ensures data == Encode(Patch(g, offset, SwapEndian(value), autoChecksum))
      ensures autoChecksum == old(autoChecksum)
    {
      UpdateChecksumWithValue(g, value, offset);
      ghost var g1 := Patch(g, offset, value, autoChecksum).(payload := g.payload);
      CopyToPayload(g1, value, offset);
      ghost var g2 := Patch(g, offset, value, autoChecksum);
      SwapAfterPatch(g, offset, value, autoChecksum);
      SwapInPlace(g2, offset, |value|);
    }

    /** swapEndian on the `size` payload bytes at `offset`, in place. */
    method SwapInPlace(ghost g: Frame, offset: nat, size: nat)
      modifies this
      requires size in {1, 2, 4, 8}
      requires ValidFrame(g) && data == Encode(g) && offset + size <= |g.payload|
      ensures data == Encode(g.(payload := Splice(g.payload, offset, SwapEndian(g.payload[offset..offset + size]))))
      ensures autoChecksum == old(autoChecksum)
    {
      PayloadAccess(g, offset, size);
      var ptr := HeaderDataPtr(data);
      ghost var piece := g.payload[offset..offset + size];
      assert data[ptr + offset..ptr + offset + size] == piece;
      var swapped := SwapEndian(data[ptr + offset..ptr + offset + size]);
      assert swapped == SwapEndian(piece);
      EncodeSplicePayload(g, offset, swapped);
      data := Splice(data, ptr + offset, swapped);
    }

    /** XsMessage_setDataBuffer (xsmessage.c:774-779): like setEndianCorrectData for a byte
        buffer of any length, copied without swapping. */
    method SetDataBuffer(buffer: seq<byte>, offset: nat)
      modifies this
      requires Canonical(data) && Fits(Max(DataSize(data), offset + |buffer|), HeaderMessageId(data))
      requires |buffer| > 0 || offset < DataSize(data)
      ensures data == Encode(Store(Decode(old(data)), offset, buffer, old(autoChecksum)))
      ensures autoChecksum == old(autoChecksum)
    {
      ghost var f := Decode(data);
      assert ValidFrame(f) && data == Encode(f) && Fits(Max(|f.payload|, offset + |buffer|), f.messageId) by {
        EncodeDecode(data);
        ReadEncoded(f);
      }
      StoreBuffer(f, buffer, offset);
    }

    /** The data growth and the write of setDataBuffer, on a buffer encoding `f`. */
    method StoreBuffer(ghost f: Frame, buffer: seq<byte>, offset: nat)
      modifies this
      requires ValidFrame(f) && data == Encode(f) && Fits(Max(|f.payload|, offset + |buffer|), f.messageId)
      ensures data == Encode(Store(f, offset, buffer, old(autoChecksum)))
      ensures autoChecksum == old(autoChecksum)
    {
      EnsureDataSize(f, offset, |buffer|);
      ghost var g := Grow(f, offset + |buffer|, autoChecksum);
      WriteBuffer(g, buffer, offset);
    }

    /** The checksum patch and copy of setDataBuffer on a buffer encoding `g` that already
        covers the bytes. */
    method WriteBuffer(ghost g: Frame, buffer: seq<byte>, offset: nat)
      modifies this
      requires ValidFrame(g) && data == Encode(g) && offset + |buffer| <= |g.payload|
      ensures data == Encode(Patch(g, offset, buffer, autoChecksum))
      ensures autoChecksum == old(autoChecksum)
    {
      UpdateChecksumWithValue(g, buffer, offset);
      ghost var g1 := Patch(g, offset, buffer, autoChecksum).(payload := g.payload);
      CopyToPayload(g1, buffer, offset);
    }

    /** XsMessage_getEndianCorrectData (xsmessage.c:289-293): the `size` payload bytes at
        `offset`, byte-swapped back to host order. */
    method GetEndianCorrectData(offset: nat, size: nat) returns (value: seq<byte>)
      requires size in {1, 2, 4, 8}
      requires Canonical(data) && offset + size <= DataSize(data)
      ensures value == ReadField(Decode(data), offset, size)
    {
      ghost var f := Decode(data);
      var ptr: nat;
      assert HeaderReadable(data) && HeaderDataPtr(data) == PayloadStart(f) && |f.payload| == DataSize(data) by {
        EncodeDecode(data);
        ReadEncoded(f);
      }
      ptr := HeaderDataPtr(data);
      assert data[ptr + offset..ptr + offset + size] == f.payload[offset..offset + size] by {
        EncodeDecode(data);
        EncodePayloadSlice(f, offset, offset + size);
      }
      value := SwapEndian(data[ptr + offset..ptr + offset + size]);
    }

    /** XsMessage_getDataByte (xsmessage.c:524-527): the payload byte at `offset`, read
        without swapping. */
    method GetDataByte(offset: nat) returns (b: byte)
      requires Canonical(data) && offset < DataSize(data)
      ensures b == Decode(data).payload[offset]
    {
      ghost var f := Decode(data);
      var ptr: nat;
      assert HeaderReadable(data) && HeaderDataPtr(data) == PayloadStart(f) && |f.payload| == DataSize(data) by {
        EncodeDecode(data);
        ReadEncoded(f);
      }
      ptr := HeaderDataPtr(data);
      assert data[ptr + offset..ptr + offset + 1] == f.payload[offset..offset + 1] by {
        EncodeDecode(data);
        EncodePayloadSlice(f, offset, offset + 1);
      }
      b := data[ptr + offset];
    }

    /** XsMessage_getDataShort, getDataLong and getDataLongLong (xsmessage.c:535-566): the
        `size`-byte unsigned integer at `offset`, which the payload holds most significant
        byte first. */
    method GetDataInteger(offset: nat, size: nat) returns (value: nat)
      requires size in {2, 4, 8}
      requires Canonical(data) && offset + size <= DataSize(data)
      ensures value == BeValue(Decode(data).payload[offset..offset + size])
      ensures value < Pow256(size)
    {
      var host := GetEndianCorrectData(offset, size);
      value := LeValue(host);
      ReadFieldValue(Decode(data), offset, size);
    }

    /** XsMessage_setDataByte, setDataShort, setDataLong and setDataLongLong
        (xsmessage.c:648-681): setEndianCorrectData of the `size` host bytes of `value`, least
        significant first. */
    method SetDataInteger(value: nat, offset: nat, size: nat)
      modifies this
      requires size in {1, 2, 4, 8} && value < Pow256(size)
      requires Canonical(data) && Fits(Max(DataSize(data), offset + size), HeaderMessageId(data))
      ensures data == Encode(Store(Decode(old(data)), offset, SwapEndian(LeBytes(value, size)), old(autoChecksum)))
      ensures autoChecksum == old(autoChecksum)
    {
      SetEndianCorrectData(LeBytes(value, size), offset);
    }

    /** One iteration of getDataFPValuesById (xsmessage.c:845-869) without the
        floating-point conversion: getDataFloat, getDataDouble, getDataF1220 (one long) or
        getDataFP1632 (a long, then a short four bytes on) at `offset`. */
    method GetFPValue(l: Layout, offset: nat) returns (v: RawValue)
      requires Canonical(data) && offset + Width(l) <= DataSize(data)
      ensures v == RawAt(Decode(data), l, offset)
    {
      match l
      case FloatLayout =>
        var b := GetEndianCorrectData(offset, 4);
        v := FloatBits(b);
      case DoubleLayout =>
        var b := GetEndianCorrectData(offset, 8);
        v := DoubleBits(b);
      case Fp1632Layout =>
        var fr := GetEndianCorrectData(offset, 4);
        var it := GetEndianCorrectData(offset + 4, 2);
        v := Fp1632Bits(fr, it);
      case Fp1220Layout =>
        var b := GetEndianCorrectData(offset, 4);
        v := Fp1220Bits(b);
    }

    /** XsMessage_getDataFPValuesById (xsmessage.c:841-873) without the floating-point
        conversion: `count` values of the sub-format of `id` from `offset` on. */
    method GetDataFPValuesById(id: bv16, offset: nat, count: nat) returns (vs: seq<RawValue>)
      requires Canonical(data) && (count == 0 || offset + Span(Width(LayoutOf(id)), count) <= DataSize(data))
      ensures vs == ReadValues(Decode(data), LayoutOf(id), offset, count)
    {
      ghost var f := Decode(data);
      assert |f.payload| == DataSize(data) by {
        EncodeDecode(data);
        ReadEncoded(f);
      }
      var l := LayoutOf(id);
      vs := [];
      var at: nat := offset;
      var i: nat := 0;
      while i < count
        invariant ReadSoFar(f, l, offset, count, i, at, vs)
      {
        vs, i, at := ReadNextValue(f, l, offset, count, i, at, vs);
      }
    }

    /** One iteration of the getDataFPValuesById loop on the buffer encoding `f`: the value
        at `at` appended, and the index and offset of the next value. */
    method ReadNextValue(ghost f: Frame, l: Layout, offset: nat, count: nat, i: nat, at: nat, vs: seq<RawValue>)
      returns (vs': seq<RawValue>, i': nat, at': nat)
      requires Canonical(data) && f == Decode(data) && |f.payload| == DataSize(data)
      requires ReadSoFar(f, l, offset, count, i, at, vs) && i < count
      ensures at + Width(l) <= |f.payload| && vs' == vs + [RawAt(f, l, at)] && i' == i + 1 && at' == at + Width(l)
      ensures ReadSoFar(f, l, offset, count, i', at', vs')
    {
      ReadSoFarStep(f, l, offset, count, i, at, vs);
      var v := GetFPValue(l, at);
      vs', i', at' := vs + [v], i + 1, at + Width(l);
    }

    /** One iteration of setDataFPValuesById (xsmessage.c:886-908) without the
        floating-point conversion, on a buffer encoding `f`: setDataFloat, setDataDouble,
        setDataF1220 (one long) or setDataFP1632 (a long, then a short four bytes on). */
    method StoreFPValue(ghost f: Frame, l: Layout, v: RawValue, offset: nat)
      modifies this
      requires Shaped(v, l)
      requires ValidFrame(f) && data == Encode(f) && Fits(Max(|f.payload|, offset + Width(l)), f.messageId)
      ensures data == Encode(StoreRaw(f, l, v, offset, old(autoChecksum)))
      ensures autoChecksum == old(autoChecksum)
    {
      match v
      case FloatBits(b) => StoreSwapped(f, b, offset);
      case DoubleBits(b) => StoreSwapped(f, b, offset);
      case Fp1220Bits(b) => StoreSwapped(f, b, offset);
      case Fp1632Bits(fr, it) => StoreFp1632(f, fr, it, offset);
    }

    /** The two setters of setDataFP1632 (xsmessage.c:763-764): the fraction word at
        `offset`, then the integer word four bytes on. */
    method StoreFp1632(ghost f: Frame, fr: seq<byte>, it: seq<byte>, offset: nat)
      modifies this
      requires |fr| == 4 && |it| == 2
      requires ValidFrame(f) && data == Encode(f) && Fits(Max(|f.payload|, offset + 6), f.messageId)
      ensures data == Encode(Store(Store(f, offset, SwapEndian(fr), old(autoChecksum)), offset + 4, SwapEndian(it), old(autoChecksum)))
      ensures autoChecksum == old(autoChecksum)
    {
      ghost var auto := autoChecksum;
      StoreSwapped(f, fr, offset);
      ghost var g := Store(f, offset, SwapEndian(fr), auto);
      Fp1632Room(f, offset, fr, it, auto);
      StoreSwapped(g, it, offset + 4);
    }

    /** XsMessage_setDataFPValuesById (xsmessage.c:882-913) without the floating-point
        conversion: the values of `vs` stored one after another from `offset`, each by the
        setter(s) of the sub-format of `id`. */
    method SetDataFPValuesById(id: bv16, vs: seq<RawValue>, offset: nat)
      modifies this
      requires forall k :: 0 <= k < |vs| ==> Shaped(vs[k], LayoutOf(id))
      requires Canonical(data) && Room(Decode(data), LayoutOf(id), offset, |vs|)
      ensures data == Encode(StoreValues(Decode(old(data)), LayoutOf(id), vs, offset, old(autoChecksum)))
      ensures autoChecksum == old(autoChecksum)
    {
      ghost var f0 := Decode(data);
      EncodeDecode(data);
      var l := LayoutOf(id);
      StoreValuesLoop(f0, l, vs, offset);
    }

    /** The loop of setDataFPValuesById on the buffer encoding `f0`: `at` moves on by the
        width of the layout after each value. */
    method StoreValuesLoop(ghost f0: Frame, l: Layout, vs: seq<RawValue>, offset: nat)
      modifies this
      requires forall k :: 0 <= k < |vs| ==> Shaped(vs[k], l)
      requires ValidFrame(f0) && data == Encode(f0) && Room(f0, l, offset, |vs|)
      ensures data == Encode(StoreValues(f0, l, vs, offset, old(autoChecksum)))
      ensures autoChecksum == old(autoChecksum)
    {
      ghost var auto := autoChecksum;
      var at: nat := offset;
      var i: nat := 0;
      ghost var cur := f0;
      ghost var target := StoreValues(f0, l, vs, offset, auto);
      StoredSoFarStart(f0, l, vs, offset, auto);
      while i < |vs|
        invariant StoredSoFar(target, cur, l, vs, offset, i, at, auto)
        invariant data == Encode(cur) && autoChecksum == auto
      {
        cur, i, at := StoreNextValue(target, cur, l, vs, offset, i, at);
      }
      StoredSoFarEnd(target, cur, l, vs, offset, at, auto);
    }

    /** One iteration of the setDataFPValuesById loop: value `i` stored at `at`, giving the
        frame `next` from which the values after it store to the same target, and the
        index and offset of the next value (`offset += size` in the source). */
    method StoreNextValue(ghost target: Frame, ghost cur: Frame, l: Layout, vs: seq<RawValue>, offset: nat, i: nat, at: nat)
      returns (ghost next: Frame, i': nat, at': nat)
      modifies this
      requires StoredSoFar(target, cur, l, vs, offset, i, at, autoChecksum) && i < |vs| && data == Encode(cur)
      ensures next == StoreRaw(cur, l, vs[i], at, old(autoChecksum)) && i' == i + 1 && at' == at + Width(l)
      ensures StoredSoFar(target, next, l, vs, offset, i', at', old(autoChecksum))
      ensures data == Encode(next) && autoChecksum == old(autoChecksum)
    {
      StoredSoFarFits(target, cur, l, vs, offset, i, at, autoChecksum);
      StoredSoFarNext(target, cur, l, vs, offset, i, at, autoChecksum);
      StoreFPValue(cur, l, vs[i], at);
      next, i', at' := StoreRaw(cur, l, vs[i], at, old(autoChecksum)), i + 1, at + Width(l);
    }

    /** XsMessage_swap (xsmessage.c:1316-1330): the two messages exchange their buffers and
        their auto-checksum flags. */
    method Swap(other: Message)
      modifies this, other
      ensures data == old(other.data) && other.data == old(data)
      ensures autoChecksum == old(other.autoChecksum) && other.autoChecksum == old(autoChecksum)
    {
      var tmpData, tmpAuto := data, autoChecksum;
      data, autoChecksum := other.data, other.autoChecksum;
      other.data, other.autoChecksum := tmpData, tmpAuto;
    }

    /** XsMessage_toHexString (xsmessage.c:1346-1363): the first `maxBytes` bytes of the
        message (all of them for 0 or a count past the total size) in hexadecimal. The
        bytes read must exist. */
    method ToHexString(maxBytes: nat) returns (s: string)
      requires |data| == 0 || (|data| > LENGTH_AT && TotalSize(data) <= |data|)
      ensures var total := TotalSize(data);
        var n := if maxBytes == 0 || maxBytes > total then total else maxBytes;
        && s == HexText(data[..n])
        && |s| == (if n == 0 then 0 else 3 * n - 1)
        && ParseHex(s) == data[..n]
    {
      var i := TotalSize(data);
      var n := maxBytes;
      if n == 0 || n > i {
        n := i;
      }
      HexTextLength(data[..n]);
      ParseHexText(data[..n]);
      s := FormatHex(data[..n]);
    }
  }
}
