/** What each operation of xsmessage.c does to a message, stated on its fields: the
    fresh message of constructSized, resizeData, insertData, deleteData, setBusId,
    setMessageId and the patched payload store behind every setter. The class methods in
    message.dfy are proved to produce the wire image of these frames; the lemmas here say
    what the frames mean. */
module Edits {
  import opened Bytes
  import opened Xbus
  import opened Header
  import opened Frames

  function Min(a: nat, b: nat): nat { if a <= b then a else b }
  function Max(a: nat, b: nat): nat { if a >= b then a else b }

  /** A payload of `n` bytes with an id of width IdExtra(id) fits the extended length. */
  predicate Fits(n: nat, id: nat)
  {
    n + IdExtra(id) <= XS_MAXMSGLEN
  }

  /** A message id constructSized can encode unambiguously. */
  predicate EncodableId(id: nat)
  {
    id <= MAX_MESSAGE_ID && id != XMID_EXTENDED_MESSAGE_ID as nat
  }

  /** constructSized (xsmessage.c:314-360): preamble, master bus id, `n` zero payload
      bytes, the checksum recomputed. */
  function Sized(n: nat, id: nat): Frame
  {
    Seal(Frame(XS_PREAMBLE, XS_BID_MASTER, id, Zeros(n), 0))
  }

  /** The payload cut to `n` bytes or extended with zeros to `n` bytes. */
  function Fit(p: seq<byte>, n: nat): (r: seq<byte>)
    ensures |r| == n
  {
    if n <= |p| then p[..n] else p + Zeros(n - |p|)
  }

  /** Copying the first min(|p|, n) bytes of `p` over `n` zeros fits `p` to `n` bytes. */
  lemma FitBySplice(p: seq<byte>, n: nat)
    ensures Splice(Zeros(n), 0, p[..Min(|p|, n)]) == Fit(p, n)
  {
    var a := Splice(Zeros(n), 0, p[..Min(|p|, n)]);
    assert forall i :: 0 <= i < n ==> a[i] == Fit(p, n)[i];
  }

  /** resizeData (xsmessage.c:1086-1120): unchanged when the size already matches;
      otherwise a fresh constructSized frame with the old id, preamble and bus id and the
      old payload fitted to the new size; the checksum is recomputed only with auto-checksum
      on, else it stays the one constructSized computed for the zero master message. */
  function Resize(f: Frame, n: nat, auto: bool): Frame
  {
    if |f.payload| == n then f
    else
      var g := Sized(n, f.messageId).(preamble := f.preamble, busId := f.busId, payload := Fit(f.payload, n));
      if auto then Seal(g) else g
  }

  /** Shrinking to `n` bytes ignores whatever lies past the first `n`. */
  lemma ResizeIgnoresTail(f: Frame, p: seq<byte>, t: seq<byte>, u: seq<byte>, auto: bool)
    requires |t| == |u| && |t| > 0
    ensures Resize(f.(payload := p + t), |p|, auto) == Resize(f.(payload := p + u), |p|, auto)
  {
    assert Fit(p + t, |p|) == p == Fit(p + u, |p|);
  }

  /** The payload of insertData: `count` zero bytes at `offset`, the gap past the old end
      zero-filled. */
  function InsertBytes(p: seq<byte>, count: nat, offset: nat): seq<byte>
  {
    if offset <= |p| then p[..offset] + Zeros(count) + p[offset..]
    else p + Zeros(offset - |p|) + Zeros(count)
  }

  /** The payload of deleteData: the `count` bytes at `offset` taken out. */
  function DeleteBytes(p: seq<byte>, count: nat, offset: nat): seq<byte>
    requires offset + count <= |p|
  {
    p[..offset] + p[offset + count..]
  }

  /** The copy loops of insertData, over the zeroed payload of the fresh message, build
      the inserted payload: within the old payload, the bytes before `offset` and then the
      rest moved up by `count`; past its end, all old bytes and then the zero gap. */
  lemma InsertBySplices(p: seq<byte>, count: nat, offset: nat)
    ensures offset <= |p| ==>
      Splice(Splice(Zeros(|p| + count), 0, p[..offset]), offset + count, p[offset..]) == InsertBytes(p, count, offset)
    ensures offset > |p| ==>
      Splice(Splice(Zeros(offset + count), 0, p), |p|, Zeros(offset - |p|)) == InsertBytes(p, count, offset)
  {
    if offset <= |p| {
      var a := Splice(Splice(Zeros(|p| + count), 0, p[..offset]), offset + count, p[offset..]);
      assert forall i :: 0 <= i < |a| ==> a[i] == InsertBytes(p, count, offset)[i];
    } else {
      var a := Splice(Splice(Zeros(offset + count), 0, p), |p|, Zeros(offset - |p|));
      assert forall i :: 0 <= i < |a| ==> a[i] == InsertBytes(p, count, offset)[i];
    }
  }

  /** The same two splices on the fresh frame `g`, in the form the copy loops leave it. */
  lemma InsertWithinFrames(g: Frame, p: seq<byte>, count: nat, offset: nat, oldSize: nat, g1: Frame, dst: nat, tail: seq<byte>)
    requires offset <= |p| && oldSize == |p| && g.payload == Zeros(oldSize + count)
    requires g1 == g.(payload := Splice(g.payload, 0, p[0..offset]))
    requires dst == offset + count && tail == p[offset..oldSize]
    ensures offset < oldSize ==> g1.(payload := Splice(g1.payload, dst, tail)) == g.(payload := InsertBytes(p, count, offset))
    ensures offset == oldSize ==> g1 == g.(payload := InsertBytes(p, count, offset))
  {
    InsertBySplices(p, count, offset);
    assert p[0..offset] == p[..offset];
    assert tail == p[offset..];
    var z1 := Splice(g.payload, 0, p[..offset]);
    if offset == oldSize {
      assert Splice(z1, offset + count, p[offset..]) == z1;
    }
  }

  /** The copy and the zero fill of insertData past the old end, on the fresh frame `g`. */
  lemma InsertPastFrames(g: Frame, p: seq<byte>, count: nat, offset: nat, oldSize: nat)
    requires offset > |p| && oldSize == |p| && g.payload == Zeros(offset + count)
    ensures var g1 := g.(payload := Splice(g.payload, 0, p[0..oldSize]));
      g1.(payload := Splice(g1.payload, oldSize, Zeros(offset - oldSize))) == g.(payload := InsertBytes(p, count, offset))
  {
    InsertBySplices(p, count, offset);
    assert p[0..oldSize] == p;
  }

  /** The two splices of deleteData on the fresh frame `g`, as the copy loops leave it. */
  lemma DeleteFrames(g: Frame, p: seq<byte>, count: nat, offset: nat, newSize: nat)
    requires offset + count <= |p| && newSize == |p| - count && g.payload == Zeros(newSize)
    ensures var g1 := g.(payload := Splice(g.payload, 0, p[0..offset]));
      g1.(payload := Splice(g1.payload, offset, p[offset + count..offset + count + (newSize - offset)]))
        == g.(payload := DeleteBytes(p, count, offset))
  {
    DeleteBySplices(p, count, offset);
    assert p[0..offset] == p[..offset];
    assert p[offset + count..offset + count + (newSize - offset)] == p[offset + count..];
  }

  /** insertData (xsmessage.c:1207-1257). */
  function Insert(f: Frame, count: nat, offset: nat, auto: bool): Frame
  {
    if count == 0 then f
    else
      var n := Max(|f.payload| + count, offset + count);
      var g := Sized(n, f.messageId).(preamble := f.preamble, busId := f.busId,
                                       payload := InsertBytes(f.payload, count, offset));
      if auto then Seal(g) else g
  }

  /** The two copy loops of deleteData build the payload without the deleted range. */
  lemma DeleteBySplices(p: seq<byte>, count: nat, offset: nat)
    requires offset + count <= |p|
    ensures Splice(Splice(Zeros(|p| - count), 0, p[..offset]), offset, p[offset + count..])
         == DeleteBytes(p, count, offset)
  {
    var a := Splice(Splice(Zeros(|p| - count), 0, p[..offset]), offset, p[offset + count..]);
    assert forall i :: 0 <= i < |a| ==> a[i] == DeleteBytes(p, count, offset)[i];
  }

  lemma InsertUnfold(f: Frame, count: nat, offset: nat, auto: bool)
    requires count > 0
    ensures var h := Sized(Max(|f.payload| + count, offset + count), f.messageId).(
                       preamble := f.preamble, busId := f.busId, payload := InsertBytes(f.payload, count, offset));
      && |h.payload| == Max(|f.payload| + count, offset + count)
      && Insert(f, count, offset, auto) == if auto then Seal(h) else h
  {
  }

  /** deleteData (xsmessage.c:1264-1306) as written: in the middle branch the checksum of
      the fresh master message is patched by subtracting the new payload's byte sum only,
      although the bus id is then overwritten. */
  function DeleteAsWritten(f: Frame, count: nat, offset: nat, auto: bool): Frame
  {
    var p := f.payload;
    if count == 0 || offset >= |p| then f
    else if offset + count >= |p| then Resize(f, offset, auto)
    else
      var s := Sized(|p| - count, f.messageId);
      var g := s.(preamble := f.preamble, busId := f.busId, payload := DeleteBytes(p, count, offset));
      if auto then g.(checksum := Wrap(s.checksum as int - Total(g.payload))) else g
  }

  /** deleteData with the checksum recomputed in the middle branch. */
  function Delete(f: Frame, count: nat, offset: nat, auto: bool): Frame
  {
    var p := f.payload;
    if count == 0 || offset >= |p| then f
    else if offset + count >= |p| then Resize(f, offset, auto)
    else
      var g := Sized(|p| - count, f.messageId).(preamble := f.preamble, busId := f.busId,
                                                 payload := DeleteBytes(p, count, offset));
      if auto then Seal(g) else g
  }

  /** setBusId (xsmessage.c:1128-1142): the old bus id is added to and the new one
      subtracted from the checksum when auto-checksum is on. */
  function SetBusId(f: Frame, busId: byte, auto: bool): Frame
  {
    f.(busId := busId,
       checksum := if auto then Wrap(f.checksum as int + f.busId as int - busId as int) else f.checksum)
  }

  /** setMessageId (xsmessage.c:1148-1200): in place when the id keeps its width; when it
      widens, resizeData makes room for two more bytes and the payload moves up behind the
      id bytes; when it narrows, the payload moves down over the id bytes and resizeData
      drops the two bytes left at the end. The checksum is recomputed with auto-checksum on. */
  function SetMessageId(f: Frame, id: nat, auto: bool): Frame
  {
    var g := Reid(f, id, auto);
    if auto then Seal(g) else g
  }

  /** setMessageId before its closing checksum recomputation. */
  function Reid(f: Frame, id: nat, auto: bool): Frame
  {
    var p := f.payload;
    if (f.messageId > 0xFF) == (id > 0xFF) then f.(messageId := id)
    else if id > 0xFF then Resize(f, |p| + 2, auto).(messageId := id, payload := p)
    else Resize(f.(messageId := id, payload := p + Zeros(2)), |p|, auto)
  }

  /** ensureDataSize (xsmessage.c:225-229): resizeData to `n` when the payload is shorter. */
  function Grow(f: Frame, n: nat, auto: bool): Frame
  {
    if |f.payload| < n then Resize(f, n, auto) else f
  }

  /** updateChecksumWithValue then the copy: the checksum patched by adding the byte sum of
      the bytes about to be replaced and subtracting that of the new bytes (only with
      auto-checksum on), then `bytes` written at `offset`. */
  function Patch(f: Frame, offset: nat, bytes: seq<byte>, auto: bool): Frame
    requires offset + |bytes| <= |f.payload|
  {
    f.(payload := Splice(f.payload, offset, bytes),
       checksum := if auto then Wrap(f.checksum as int + Total(f.payload[offset..offset + |bytes|]) - Total(bytes))
                   else f.checksum)
  }

  /** Swapping the bytes just patched in gives the patch of the swapped bytes: the byte
      sum, and so the checksum patch, does not depend on the byte order. */
  lemma SwapAfterPatch(g: Frame, offset: nat, value: seq<byte>, auto: bool)
    requires |value| in {1, 2, 4, 8} && offset + |value| <= |g.payload|
    ensures var p := Patch(g, offset, value, auto);
      && p.payload[offset..offset + |value|] == value
      && p.(payload := Splice(p.payload, offset, SwapEndian(value))) == Patch(g, offset, SwapEndian(value), auto)
  {
    var p := Patch(g, offset, value, auto);
    assert p.payload[offset..offset + |value|] == value;
    assert Splice(p.payload, offset, SwapEndian(value)) == Splice(g.payload, offset, SwapEndian(value));
    SwapEndianReverses(value);
    TotalReversal(value, SwapEndian(value));
  }

  /** The store behind setEndianCorrectData and setDataBuffer: grow, then patch. */
  function Store(f: Frame, offset: nat, bytes: seq<byte>, auto: bool): Frame
  {
    Patch(Grow(f, offset + |bytes|, auto), offset, bytes, auto)
  }

  // ---------------------------------------------------------------- construction

  /** A fresh message holds `n` zero bytes under the given id, is sealed, and reads back
      with the header readers as the data size `n` and the id; the length field is short
      below 255 and extended from 255 on. */
  lemma SizedFacts(n: nat, id: nat)
    requires EncodableId(id) && Fits(n, id)
    ensures var f := Sized(n, id);
      && ValidFrame(f) && Sealed(f)
      && f.preamble == XS_PREAMBLE && f.busId == XS_BID_MASTER && f.payload == Zeros(n)
    ensures var e := Encode(Sized(n, id));
      && Canonical(e) && DataSize(e) == n && MessageId(e) == id
      && ChecksumReadable(e) && ChecksumPos(e) < |e| && ChecksumOk(e)
      && (n + IdExtra(id) < 255 ==> e[LENGTH_AT] as nat == n + IdExtra(id) && TotalSize(e) == n + IdExtra(id) + XS_LEN_MSGHEADERCS)
      && (n + IdExtra(id) >= 255 ==> e[LENGTH_AT] == XS_EXTLENCODE && TotalSize(e) == n + IdExtra(id) + XS_LEN_MSGEXTHEADERCS)
  {
    var f := Sized(n, id);
    assert ValidFrame(f);
    ReadEncoded(f);
    EncodeLayout(f);
    ChecksumOkIffSealed(f);
  }

  /** Data size 254 is the last with a short header; 255 adds the two extended length bytes. */
  lemma ExtendedLengthBoundary(id: nat)
    requires EncodableId(id) && id <= 0xFF
    ensures TotalSize(Encode(Sized(254, id))) == 254 + XS_LEN_MSGHEADERCS
    ensures TotalSize(Encode(Sized(255, id))) == 255 + XS_LEN_MSGEXTHEADERCS
    ensures |Encode(Sized(255, id))| == |Encode(Sized(254, id))| + 3
  {
    SizedFacts(254, id);
    SizedFacts(255, id);
  }

  // ---------------------------------------------------------------- resize

  /** resizeData keeps the preamble, bus id and id, leaves exactly `n` payload bytes of
      which the first min(old, n) are the old ones and the rest zero, and seals the message
      with auto-checksum on. */
  lemma ResizeFacts(f: Frame, n: nat, auto: bool)
    requires ValidFrame(f) && Fits(n, f.messageId)
    ensures var r := Resize(f, n, auto);
      && ValidFrame(r)
      && r.preamble == f.preamble && r.busId == f.busId && r.messageId == f.messageId
      && |r.payload| == n
      && r.payload[..Min(|f.payload|, n)] == f.payload[..Min(|f.payload|, n)]
      && (forall i :: |f.payload| <= i < n ==> r.payload[i] == 0)
      && (auto && (Sealed(f) || |f.payload| != n) ==> Sealed(r))
      && (n == |f.payload| ==> r == f)
  {
  }

  // ---------------------------------------------------------------- insert and delete

  /** The inserted payload: bytes before `offset` kept, `count` zeros (and any gap past the
      old end) at `offset`, the bytes from `offset` on moved up by `count`. */
  lemma InsertFacts(f: Frame, count: nat, offset: nat, auto: bool)
    requires ValidFrame(f) && count > 0 && Fits(Max(|f.payload| + count, offset + count), f.messageId)
    ensures var r := Insert(f, count, offset, auto); var p := f.payload;
      && ValidFrame(r)
      && r.preamble == f.preamble && r.busId == f.busId && r.messageId == f.messageId
      && |r.payload| == Max(|p| + count, offset + count)
      && (forall i :: 0 <= i < Min(offset, |p|) ==> r.payload[i] == p[i])
      && (forall i :: Min(offset, |p|) <= i < offset + count ==> r.payload[i] == 0)
      && (forall i :: offset <= i < |p| ==> r.payload[i + count] == p[i])
      && (auto ==> Sealed(r))
  {
  }

  /** The deleted payload: truncated to `offset` when the range reaches the end, else the
      bytes after the range moved down by `count`; unchanged for count 0 or an offset at or
      past the end. The checksum is sealed with auto-checksum on. */
  lemma DeleteFacts(f: Frame, count: nat, offset: nat, auto: bool)
    requires ValidFrame(f)
    ensures var r := Delete(f, count, offset, auto); var p := f.payload;
      && ValidFrame(r)
      && r.preamble == f.preamble && r.busId == f.busId && r.messageId == f.messageId
      && (count == 0 || offset >= |p| ==> r == f)
      && (count > 0 && offset < |p| && offset + count >= |p| ==> r.payload == p[..offset])
      && (count > 0 && offset + count < |p| ==> r.payload == DeleteBytes(p, count, offset))
      && (auto && (Sealed(f) || (count > 0 && offset < |p|)) ==> Sealed(r))
  {
    var p := f.payload;
    if count > 0 && offset < |p| && offset + count >= |p| {
      ResizeFacts(f, offset, auto);
      assert Resize(f, offset, auto).payload == p[..offset];
    }
  }

  /** Removing the zeros insertData put at an offset within the payload restores it. */
  lemma InsertDeleteBytes(p: seq<byte>, count: nat, offset: nat)
    requires offset <= |p|
    ensures var m := p[..offset] + Zeros(count) + p[offset..];
      && (offset == |p| ==> m[..offset] == p)
      && (offset < |p| ==> DeleteBytes(m, count, offset) == p)
  {
    var m := p[..offset] + Zeros(count) + p[offset..];
    assert m[..offset] == p[..offset];
    assert m[offset + count..] == p[offset..];
    assert p == p[..offset] + p[offset..];
  }

  /** Two sealed frames with the same fields are the same frame. */
  lemma SealedDetermined(f: Frame, g: Frame)
    requires Sealed(f) && Sealed(g)
    requires f.preamble == g.preamble && f.busId == g.busId && f.messageId == g.messageId && f.payload == g.payload
    ensures f == g
  {
  }

  /** Deleting what was just inserted at an offset within the payload restores the
      payload; with auto-checksum on, a sealed message comes back unchanged. */
  lemma {:induction false} InsertThenDelete(f: Frame, count: nat, offset: nat, auto: bool)
    requires ValidFrame(f) && offset <= |f.payload| && Fits(|f.payload| + count, f.messageId)
    ensures Delete(Insert(f, count, offset, auto), count, offset, auto).payload == f.payload
    ensures auto && Sealed(f) ==> Delete(Insert(f, count, offset, auto), count, offset, auto) == f
  {
    if count > 0 {
      var p := f.payload;
      var m := Insert(f, count, offset, auto);
      InsertFacts(f, count, offset, auto);
      DeleteFacts(m, count, offset, auto);
      var r := Delete(m, count, offset, auto);
      assert m.payload == p[..offset] + Zeros(count) + p[offset..];
      InsertDeleteBytes(p, count, offset);
      assert r.payload == p;
      if auto && Sealed(f) {
        SealedDetermined(r, f);
      }
    }
  }

  /** The middle branch of deleteData as written leaves a correct checksum exactly when
      the bus id is the master id. */
  lemma DeleteAsWrittenChecksum(f: Frame, count: nat, offset: nat)
    requires ValidFrame(f) && count > 0 && offset + count < |f.payload|
    ensures Sealed(DeleteAsWritten(f, count, offset, true)) <==> f.busId == XS_BID_MASTER
    ensures DeleteAsWritten(f, count, offset, true).payload == Delete(f, count, offset, true).payload
  {
    var p := f.payload;
    var q := DeleteBytes(p, count, offset);
    var z := Frame(XS_PREAMBLE, XS_BID_MASTER, f.messageId, Zeros(|p| - count), 0);
    var s := Seal(z);
    var d := s.(preamble := f.preamble, busId := f.busId, payload := q,
                checksum := Wrap(s.checksum as int - Total(q)));
    assert DeleteAsWritten(f, count, offset, true) == d;
    var t := Total(HeadTail(f.messageId, |p| - count + IdExtra(f.messageId)));
    var m := XS_BID_MASTER as int;
    assert d.checksum == Wrap(-(m + t) - Total(q) as int) by {
      CorrectChecksumValue(z);
      TotalZeros(|p| - count);
      WrapShift(-(m + t), -(Total(q) as int));
    }
    assert CorrectChecksum(d) == Wrap(-(f.busId as int + t + Total(q))) by {
      CorrectChecksumValue(d);
    }
    WrapEq(-(m + t) - Total(q) as int, -(f.busId as int + t + Total(q)));
  }

  /** Deleting what was just inserted, with deleteData as written: the payload comes
      back, but with auto-checksum on a sealed message comes back unchanged only when the
      middle branch is not taken or the bus id is the master id. */
  lemma {:induction false} InsertThenDeleteAsWritten(f: Frame, count: nat, offset: nat, auto: bool)
    requires ValidFrame(f) && offset <= |f.payload| && Fits(|f.payload| + count, f.messageId)
    ensures DeleteAsWritten(Insert(f, count, offset, auto), count, offset, auto).payload == f.payload
    ensures auto && Sealed(f) ==>
      (DeleteAsWritten(Insert(f, count, offset, auto), count, offset, auto) == f
       <==> count == 0 || offset == |f.payload| || f.busId == XS_BID_MASTER)
  {
    InsertThenDelete(f, count, offset, auto);
    if count > 0 && offset < |f.payload| {
      var m := Insert(f, count, offset, auto);
      InsertFacts(f, count, offset, auto);
      if auto {
        DeleteAsWrittenChecksum(m, count, offset);
        var r := DeleteAsWritten(m, count, offset, true);
        DeleteFacts(m, count, offset, true);
        if Sealed(f) && Sealed(r) {
          SealedDetermined(r, f);
        }
      } else {
        assert DeleteAsWritten(m, count, offset, false) == Delete(m, count, offset, false);
      }
    }
  }

  /** A concrete message on bus 0x01 whose checksum the middle branch of deleteData as
      written breaks. */
  lemma DeleteAsWrittenCounterexample()
    ensures var f := Seal(Frame(XS_PREAMBLE, 0x01, 0x10, [1, 2, 3], 0));
      ValidFrame(f) && Sealed(f) && !Sealed(DeleteAsWritten(f, 1, 0, true))
  {
    var f := Seal(Frame(XS_PREAMBLE, 0x01, 0x10, [1, 2, 3], 0));
    DeleteAsWrittenChecksum(f, 1, 0);
  }

  // ---------------------------------------------------------------- bus id and message id

  /** setBusId changes only the bus id and, with auto-checksum on, keeps a sealed
      message sealed. */
  lemma SetBusIdKeepsSeal(f: Frame, busId: byte, auto: bool)
    ensures var r := SetBusId(f, busId, auto);
      && r.busId == busId && r.payload == f.payload && r.messageId == f.messageId
      && r.preamble == f.preamble
      && (auto && Sealed(f) ==> Sealed(r))
      && (!auto ==> r.checksum == f.checksum)
  {
    var r := SetBusId(f, busId, auto);
    CorrectChecksumValue(f);
    CorrectChecksumValue(r);
    if auto && Sealed(f) {
      WrapShift(-(f.busId as int + Total(HeadTail(f.messageId, DataLen(f))) + Total(f.payload)),
                f.busId as int - busId as int);
    }
  }

  /** setMessageId sets the id and keeps the payload bytes, the preamble and the bus id,
      so that XsMessage_dataSize reads the same size as before; auto-checksum seals it. */
  lemma SetMessageIdFacts(f: Frame, id: nat, auto: bool)
    requires ValidFrame(f) && EncodableId(id) && Fits(|f.payload|, id)
    ensures var r := SetMessageId(f, id, auto);
      && ValidFrame(r)
      && r.messageId == id && r.payload == f.payload
      && r.preamble == f.preamble && r.busId == f.busId
      && (auto ==> Sealed(r))
      && DataSize(Encode(r)) == DataSize(Encode(f))
  {
    var p := f.payload;
    var g: Frame;
    if (f.messageId > 0xFF) == (id > 0xFF) {
      g := f.(messageId := id);
    } else if id > 0xFF {
      ResizeFacts(f, |p| + 2, auto);
      g := Resize(f, |p| + 2, auto).(messageId := id, payload := p);
    } else {
      var h := f.(messageId := id, payload := p + Zeros(2));
      ResizeFacts(h, |p|, auto);
      assert (p + Zeros(2))[..|p|] == p;
      g := Resize(h, |p|, auto);
    }
    assert ValidFrame(g) && g.messageId == id && g.payload == p && g.preamble == f.preamble && g.busId == f.busId;
    assert g == Reid(f, id, auto);
    var r := SetMessageId(f, id, auto);
    ReadBack(f);
    ReadBack(r);
  }

  /** Switching between a one-byte and a two-byte id changes the message size by two as
      long as the declared size stays on the same side of 255. */
  lemma SetMessageIdTotalSize(f: Frame, id: nat, auto: bool)
    requires ValidFrame(f) && EncodableId(id) && Fits(|f.payload|, id)
    requires (DataLen(f) < 255) == (|f.payload| + IdExtra(id) < 255)
    ensures |Encode(SetMessageId(f, id, auto))| + IdExtra(f.messageId) == |Encode(f)| + IdExtra(id)
  {
    SetMessageIdFacts(f, id, auto);
    PayloadStartValue(f);
    PayloadStartValue(SetMessageId(f, id, auto));
  }

  /** Across the 254/255 boundary the size changes by four: widening the id of a
      253-byte payload also switches to the extended length. */
  lemma SetMessageIdAcrossBoundary()
    ensures var f := Sized(253, 0x10);
      |Encode(SetMessageId(f, 0x1234, true))| == |Encode(f)| + 4
  {
    var f := Sized(253, 0x10);
    SizedFacts(253, 0x10);
    SetMessageIdFacts(f, 0x1234, true);
    PayloadStartValue(f);
    PayloadStartValue(SetMessageId(f, 0x1234, true));
  }

  /** The in-place path of setMessageId given the id sentinel itself on a one-byte-id
      message: the sentinel byte makes the readers take the first two payload bytes for an
      id and the data size shrinks by two. */
  lemma SentinelIdInPlace(f: Frame)
    requires ValidFrame(f) && f.messageId <= 0xFF && |f.payload| >= 2 && DataLen(f) < 255
    ensures var b := Encode(f)[MESSAGE_ID_AT := XMID_EXTENDED_MESSAGE_ID];
      && HeaderSpans(b) && |b| > MESSAGE_ID_AT
      && DataSize(b) == |f.payload| - 2
      && HeaderMessageId(b) == Be16(f.payload[0], f.payload[1])
  {
    ReadEncoded(f);
    EncodeLayout(f);
    PayloadStartValue(f);
  }

  // ---------------------------------------------------------------- stores

  /** A store writes `bytes` at `offset` after growing the payload to cover them; bytes
      outside the range keep their value (zero in any new tail). */
  lemma StoreFacts(f: Frame, offset: nat, bytes: seq<byte>, auto: bool)
    requires ValidFrame(f) && Fits(Max(|f.payload|, offset + |bytes|), f.messageId)
    ensures var r := Store(f, offset, bytes, auto); var p := f.payload;
      && ValidFrame(r)
      && r.preamble == f.preamble && r.busId == f.busId && r.messageId == f.messageId
      && |r.payload| == Max(|p|, offset + |bytes|)
      && r.payload[offset..offset + |bytes|] == bytes
      && (forall i :: 0 <= i < |r.payload| && !(offset <= i < offset + |bytes|) ==>
            r.payload[i] == if i < |p| then p[i] else 0)
  {
    var p := f.payload;
    var r0 := Grow(f, offset + |bytes|, auto);
    if |p| < offset + |bytes| {
      ResizeFacts(f, offset + |bytes|, auto);
    }
    assert ValidFrame(r0) && |r0.payload| == Max(|p|, offset + |bytes|);
    assert forall i :: 0 <= i < |r0.payload| ==> r0.payload[i] == if i < |p| then p[i] else 0 by {
      if |p| < offset + |bytes| {
        forall i | 0 <= i < |r0.payload|
          ensures r0.payload[i] == if i < |p| then p[i] else 0
        {
          if i < |p| {
            assert r0.payload[..|p|][i] == p[..|p|][i];
          }
        }
      }
    }
  }

  /** With auto-checksum on, a store keeps a sealed message sealed. */
  lemma StoreKeepsSeal(f: Frame, offset: nat, bytes: seq<byte>)
    requires ValidFrame(f) && Sealed(f) && Fits(Max(|f.payload|, offset + |bytes|), f.messageId)
    ensures Sealed(Store(f, offset, bytes, true))
  {
    var p := f.payload;
    var r0 := Grow(f, offset + |bytes|, true);
    if |p| < offset + |bytes| {
      ResizeFacts(f, offset + |bytes|, true);
    }
    StorePatchSeals(r0, offset, bytes);
  }

  /** The incremental patch: adding the replaced bytes' sum and subtracting the new
      bytes' sum keeps a sealed frame sealed. */
  lemma StorePatchSeals(f: Frame, offset: nat, bytes: seq<byte>)
    requires Sealed(f) && offset + |bytes| <= |f.payload|
    ensures Sealed(Patch(f, offset, bytes, true))
  {
    var prior := f.payload[offset..offset + |bytes|];
    var g := f.(payload := Splice(f.payload, offset, bytes),
                checksum := Wrap(f.checksum as int + Total(prior) - Total(bytes)));
    CorrectChecksumValue(f);
    CorrectChecksumValue(g);
    TotalSplice(f.payload, offset, bytes);
    WrapShift(-(f.busId as int + Total(HeadTail(f.messageId, DataLen(f))) + Total(f.payload)),
              Total(prior) - Total(bytes));
  }

  /** What getEndianCorrectData reads at `offset`: `size` bytes from the payload start,
      byte-swapped into host order. */
  function ReadField(f: Frame, offset: nat, size: nat): seq<byte>
    requires size in {1, 2, 4, 8} && offset + size <= |f.payload|
  {
    SwapEndian(f.payload[offset..offset + size])
  }

  /** setEndianCorrectData followed by getEndianCorrectData at the same offset returns the
      value's host bytes. */
  lemma StoreThenRead(f: Frame, offset: nat, value: seq<byte>, auto: bool)
    requires ValidFrame(f) && |value| in {1, 2, 4, 8}
    requires Fits(Max(|f.payload|, offset + |value|), f.messageId)
    ensures var r := Store(f, offset, SwapEndian(value), auto);
      offset + |value| <= |r.payload| && ReadField(r, offset, |value|) == value
  {
    StoreFacts(f, offset, SwapEndian(value), auto);
    SwapEndianInvolution(value);
  }
}
