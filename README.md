# Xbus message codec (XsMessage) in Dafny

This project models `XsMessage`, the Xsens Xbus message buffer of
`xspublic/xstypes/xsmessage.c`. It also proves what each operation does to the bytes on
the wire.

An Xbus message is one byte buffer laid out as follows:

1. the preamble `0xFA`;
2. the bus id;
3. the message id;
4. the length byte;
5. two big-endian extended-length bytes, present when the length byte is the sentinel
   `XS_EXTLENCODE`;
6. two big-endian extended-id bytes, present when the id byte is the sentinel
   `XMID_ExtendedMessageID`;
7. the data;
8. one checksum byte, which makes the byte sum from the bus id on 0 modulo 256.

The model has two layers.

- **Byte layer.** `Header` reads the raw buffer the way the C header readers do:
  `XsMessageHeader_dataSize`, `dataPtr`, `payloadSize`, `messageId`, `getDataSizeSafe`,
  `XsMessage_dataSize`, `getTotalMessageSize`, the checksum address of
  `updateChecksumAddress`, `computeChecksum`, `isChecksumOk` and `empty`. Each reader
  requires the bytes the C code dereferences and no more. `HeaderReadable` covers the
  fixed fields and the extended length. `IdReadable` adds the two extended-id bytes that
  `XsMessageHeader_messageId` reads when the id byte is the sentinel. `ChecksumReadable`
  covers the bytes `computeChecksum` sums.
- **Frame layer.** `Frames` describes a message by its fields, in the datatype
  `Frame(preamble, busId, messageId, payload, checksum)`. `Encode` lays a frame out in
  bytes. `Decode` reads it back through the header readers. The two are proved inverse on
  every canonical buffer, which is how `constructSized` lays messages out.

Each editing operation is a function on frames, in `Edits` and `Values`, and its
properties are proved there. The class `Messages.Message` holds the buffer `data` and the
flag `autoChecksum`. Its methods do the byte work the C code does: copy loops, in-place
writes, moves of the payload and incremental checksum patches. Each method proves that the
buffer it leaves behind is `Encode` of the frame function applied to the old contents.
`Hex` models `toHexString`.

The constants come from header files that are not part of this model (`xsmessage.h`,
`xsbusid.h`, `xsxbusmessageid.h`, `xsdataidentifier.h`). They are pinned once, in module
`Xbus`.

The header layout is the field order of the `XsMessageHeader` struct that xsmessage.c
reads: `m_preamble`, `m_busId`, `m_messageId`, `m_length`, then `m_payload`, which
starts with the extended length and id bytes when they are present.

## Model

| member | source | states |
|---|---|---|
| Bytes.ByteSumOf | xspublic/xstypes/xsmessage.c:78-83 | the byteSum loop returns the sum of the first `count` bytes modulo 256 |
| Bytes.NegByteSumUnique | xspublic/xstypes/xsmessage.c:1017-1027 | a checksum byte brings the covered byte sum to 0 exactly when it is the negated byte sum computeChecksum returns |
| Bytes.TotalReversal | xspublic/xstypes/xsmessage.c:236-243 | reversing bytes keeps their sum, so the checksum patch may subtract the unswapped value's sum |
| Bytes.SwapEndianReverses | xspublic/xstypes/xsmessage.c:249-282 | swapEndian of a 1, 2, 4 or 8 byte value is its byte reversal |
| Bytes.SwapEndianInvolution | xspublic/xstypes/xsmessage.c:249-282 | swapping twice restores the value |
| Bytes.WireIsBigEndian | xspublic/xstypes/xsmessage.c:300-308 | the swapped little-endian host bytes of `v` read big-endian give `v` |
| Bytes.LeValueOfLeBytes | xspublic/xstypes/xsmessage.c:648-681 | the host bytes of an integer setter's value give that value back |
| Bytes.LeBytesOfLeValue | xspublic/xstypes/xsmessage.c:535-566 | every byte sequence is the host layout of the value it denotes, which is below 256^n |
| Header.CanonicalReaders | xspublic/xstypes/xsmessage.c:415-454 | on a canonical buffer the range-checked and the bounds-checked data sizes agree; dataSize is the payload size; the checksum address is the last byte; isChecksumOk holds exactly when the last byte negates the covered byte sum |
| Header.ReadersAgree | xspublic/xstypes/xsmessage.c:89-106 | XsMessageHeader_dataSize and getDataSizeSafe differ exactly on an extended length that is neither 0 nor within [255, XS_MAXMSGLEN] |
| Header.DeclaredSizeUnchecked | xspublic/xstypes/xsmessage.c:415-437 | a 5-byte buffer can declare 200 data bytes: dataSize reports 200 and the total size 205, so reads need well-formedness |
| Header.HeaderDataSize | xspublic/xstypes/xsmessage.c:89-106 | the declared data size is at most XS_MAXMSGLEN: an extended length outside [255, XS_MAXMSGLEN] reads as 0 |
| Header.HeaderDataPtr | xspublic/xstypes/xsmessage.c:112-128 | the data pointer is the first `m_payload` byte or up to four bytes past it: two extended-length and two extended-id bytes at most |
| Header.HeaderPayloadSize | xspublic/xstypes/xsmessage.c:134-143 | the payload size is the declared data size, or two less when the extended id bytes are subtracted |
| Header.HeaderMessageId | xspublic/xstypes/xsmessage.c:149-174 | the id fits 16 bits, and is at most 0xFF unless the id byte is the sentinel |
| Header.WriteId | xspublic/xstypes/xsmessage.c:180-197 | the buffer length, preamble, bus id and length byte are kept; for an id other than the sentinel, the id byte becomes the sentinel exactly when the id is above 0xFF |
| Header.SafeDataSize | xspublic/xstypes/xsmessage.c:415-437 | the result fits 16 bits; the extended length is not range-checked |
| Header.DataSize | xspublic/xstypes/xsmessage.c:440-454 | 0 for an absent buffer; otherwise getDataSizeSafe or up to two less |
| Header.MessageId | xspublic/xstypes/xsmessage.c:458-465 | the id fits 16 bits, for an absent buffer too |
| Header.TotalSize | xspublic/xstypes/xsmessage.c:498-516 | 0 for an absent buffer; otherwise getDataSizeSafe plus the short or the extended header-and-checksum size |
| Header.Checksum | xspublic/xstypes/xsmessage.c:1017-1027 | the returned byte brings the byte sum of indices 1 through total size - 2 to 0 modulo 256 |
| Header.ChecksumPos | xspublic/xstypes/xsmessage.c:1039-1046 | the checksum address lies past the fixed header fields and at most four header bytes plus XS_MAXMSGLEN beyond them |
| Header.ChecksumOk | xspublic/xstypes/xsmessage.c:1051-1055 | true exactly when the byte at the checksum address brings the covered byte sum to 0 modulo 256 |
| Header.Empty | xspublic/xstypes/xsmessage.c:1074-1080 | no contract of its own; Frames.EmptyEncoded states what it means for an encoded message |
| Frames.EncodeLayout | xspublic/xstypes/xsmessage.c:314-360 | an encoded frame holds preamble, bus id, id byte, short or extended length, extended id bytes, payload and checksum at their positions |
| Frames.ReadEncoded | xspublic/xstypes/xsmessage.c:89-197 | the header readers recover data size, payload size, data pointer, message id, total size and checksum address of an encoded frame |
| Frames.DecodeEncode | xspublic/xstypes/xsmessage.c:89-174 | decoding an encoded frame gives the frame back |
| Frames.EncodeDecode | xspublic/xstypes/xsmessage.c:415-516 | every canonical buffer is the encoding of the frame it decodes to |
| Frames.ChecksumOkIffSealed | xspublic/xstypes/xsmessage.c:1051-1055 | isChecksumOk on an encoded frame holds exactly when its checksum field is the correct one |
| Frames.SealedIffZeroSum | xspublic/xstypes/xsmessage.c:1017-1027 | a frame is sealed exactly when the bytes from the bus id on sum to 0 modulo 256 |
| Frames.CorruptionDetected | xspublic/xstypes/xsmessage.c:1051-1055 | changing any one payload byte of a sealed frame breaks the checksum |
| Frames.RecomputeSeals | xspublic/xstypes/xsmessage.c:1031-1035 | storing computeChecksum at the checksum address of a canonical buffer gives the sealed frame's encoding |
| Frames.EmptyEncoded | xspublic/xstypes/xsmessage.c:1074-1080 | an encoded message is empty exactly when its id is 0 and its bus id is the master's |
| Frames.WriteIdInPlace | xspublic/xstypes/xsmessage.c:180-197 | XsMessageHeader_setMessageId for an id of the same width rewrites only the id in the encoding |
| Edits.SizedFacts | xspublic/xstypes/xsmessage.c:314-360 | constructSized gives a canonical sealed message on the master bus id with `n` zero data bytes; dataSize is `n`; the message id is `id`; the short or the extended header size applies by the 255 threshold |
| Edits.ExtendedLengthBoundary | xspublic/xstypes/xsmessage.c:337-345 | 254 data bytes use the short header and 255 the extended one, which is three bytes longer |
| Edits.FitBySplice | xspublic/xstypes/xsmessage.c:1111-1114 | copying the first min(old, new) bytes over a zeroed payload fits the old payload to the new size |
| Edits.ResizeFacts | xspublic/xstypes/xsmessage.c:1086-1120 | resizeData keeps preamble, bus id and id; keeps the first min(old, new) bytes and zeroes the rest; seals with auto-checksum on; is the identity at the same size |
| Edits.InsertBySplices | xspublic/xstypes/xsmessage.c:1238-1251 | the insertData copy loops produce the payload with `count` zeros inserted at `offset`, or zeros up to `offset + count` past the end |
| Edits.InsertFacts | xspublic/xstypes/xsmessage.c:1207-1257 | insertData gives size max(old+count, offset+count); bytes before `offset` are kept; the gap is zero; bytes from `offset` move up by `count`; sealed with auto-checksum on |
| Edits.DeleteBySplices | xspublic/xstypes/xsmessage.c:1297-1300 | the deleteData copy loops produce the payload without the `count` bytes at `offset` |
| Edits.DeleteFacts | xspublic/xstypes/xsmessage.c:1264-1306 | deleteData is the identity for count 0 or an offset past the end; it truncates to `offset` when the deletion reaches the end; otherwise it removes `count` bytes at `offset`; with the checksum recomputed the result is sealed |
| Edits.InsertThenDelete | xspublic/xstypes/xsmessage.c:1207-1306 | deleting what insertData inserted at `offset <= size` restores the payload; with the corrected deleteData (checksum recomputed) and auto-checksum on, a sealed frame comes back whole |
| Edits.InsertThenDeleteAsWritten | xspublic/xstypes/xsmessage.c:1207-1306 | with deleteData as written the payload still comes back; with auto-checksum on, a sealed frame comes back whole exactly when the count is 0, the offset is the data size, or the bus id is the master's |
| Edits.DeleteAsWrittenChecksum | xspublic/xstypes/xsmessage.c:1288-1303 | the middle branch of deleteData as written leaves a valid checksum exactly when the bus id is the master's, with the same payload as the corrected version |
| Edits.DeleteAsWrittenCounterexample | xspublic/xstypes/xsmessage.c:1291-1303 | a sealed message on bus id 1 loses its valid checksum when deleteData removes one byte of three |
| Edits.SetBusIdKeepsSeal | xspublic/xstypes/xsmessage.c:1128-1142 | setBusId changes only the bus id and checksum, keeps a valid checksum valid with auto-checksum on, and leaves the checksum alone with it off |
| Edits.SetMessageIdFacts | xspublic/xstypes/xsmessage.c:1148-1200 | setMessageId sets the id and keeps preamble, bus id, every payload byte and dataSize; it seals with auto-checksum on |
| Edits.SetMessageIdTotalSize | xspublic/xstypes/xsmessage.c:1166-1196 | changing the id width adds or removes exactly the two extended-id bytes |
| Edits.SetMessageIdAcrossBoundary | xspublic/xstypes/xsmessage.c:1173 | widening the id of a 253-byte message crosses 255 and grows the buffer by four bytes, not two |
| Edits.SentinelIdInPlace | xspublic/xstypes/xsmessage.c:1158-1160 | writing the sentinel as a one-byte id in place makes the readers take two payload bytes as an extended id and report two fewer data bytes |
| Edits.StoreFacts | xspublic/xstypes/xsmessage.c:300-308 | the store behind the setters grows the payload to `offset + size` if shorter, writes the bytes at `offset`, and keeps every other byte (zero past the old end) |
| Edits.StoreKeepsSeal | xspublic/xstypes/xsmessage.c:300-308 | a setter keeps a valid checksum valid with auto-checksum on |
| Edits.StorePatchSeals | xspublic/xstypes/xsmessage.c:236-243 | the incremental patch (add the old bytes' sum, subtract the new) keeps a sealed frame sealed |
| Edits.SwapAfterPatch | xspublic/xstypes/xsmessage.c:304-307 | copying the value then swapping it in place is the same as patching with the swapped value, checksum included |
| Edits.StoreThenRead | xspublic/xstypes/xsmessage.c:289-308 | getEndianCorrectData at the offset setEndianCorrectData wrote returns the written value |
| Edits.Sized | xspublic/xstypes/xsmessage.c:314-360 | no contract of its own: constructSized on frames; Edits.SizedFacts states its properties |
| Edits.Resize | xspublic/xstypes/xsmessage.c:1086-1120 | no contract of its own: resizeData on frames; Edits.ResizeFacts states its properties |
| Edits.Grow | xspublic/xstypes/xsmessage.c:225-229 | no contract of its own: ensureDataSize on frames; Edits.StoreFacts and Messages.Message.EnsureDataSize state its effect |
| Edits.Patch | xspublic/xstypes/xsmessage.c:236-243 | no contract of its own: the checksum patch and copy of the setters; Edits.StorePatchSeals and Edits.SwapAfterPatch state its properties |
| Edits.Store | xspublic/xstypes/xsmessage.c:300-308 | no contract of its own: grow, then patch; Edits.StoreFacts and Edits.StoreKeepsSeal state its properties |
| Edits.Insert | xspublic/xstypes/xsmessage.c:1207-1257 | no contract of its own: insertData on frames; Edits.InsertFacts states its properties |
| Edits.DeleteAsWritten | xspublic/xstypes/xsmessage.c:1264-1306 | no contract of its own: deleteData as written; Edits.DeleteAsWrittenChecksum and Edits.InsertThenDeleteAsWritten state its properties |
| Edits.Delete | xspublic/xstypes/xsmessage.c:1264-1306 | no contract of its own: deleteData with the checksum recomputed; Edits.DeleteFacts states its properties |
| Edits.SetBusId | xspublic/xstypes/xsmessage.c:1128-1142 | no contract of its own: setBusId on frames; Edits.SetBusIdKeepsSeal states its properties |
| Edits.SetMessageId | xspublic/xstypes/xsmessage.c:1148-1200 | no contract of its own: setMessageId on frames; Edits.SetMessageIdFacts and Edits.SetMessageIdTotalSize state its properties |
| Edits.Reid | xspublic/xstypes/xsmessage.c:1157-1196 | no contract of its own: setMessageId before its closing checksum recomputation; Messages.Message.WidenId and NarrowId are proved to compute it |
| Values.FPValueSize | xspublic/xstypes/xsmessage.c:787-806 | 8 bytes for double, 6 for 16.32 and 4 for float and 12.20, each exactly for its sub-format |
| Values.LayoutOf | xspublic/xstypes/xsmessage.c:845-869 | each sub-format selects its own layout |
| Values.FPValueSizeIsWidth | xspublic/xstypes/xsmessage.c:841-913 | the loops advance the offset by getFPValueSize of the identifier |
| Values.UnwireWire | xspublic/xstypes/xsmessage.c:620-621 | reading back the bytes a raw value is stored as (16.32: fraction word, then integer word four bytes on) gives the value |
| Values.StoreFp1632Facts | xspublic/xstypes/xsmessage.c:763-764 | the two setters of setDataFP1632 lay fraction and integer words side by side and keep the checksum valid |
| Values.StoreRawFacts | xspublic/xstypes/xsmessage.c:886-908 | one iteration of setDataFPValuesById lays the value's wire bytes at the offset and keeps the checksum valid |
| Values.StoreValuesFacts | xspublic/xstypes/xsmessage.c:882-913 | setDataFPValuesById lays all values back to back from the offset and keeps the checksum valid |
| Values.StoreValuesThenRead | xspublic/xstypes/xsmessage.c:841-913 | getDataFPValuesById after setDataFPValuesById with the same identifier, offset and count returns the values written |
| Values.ReadFieldValue | xspublic/xstypes/xsmessage.c:535-566 | the integer getters return the big-endian value of the bytes, below 2^(8·size) |
| Values.SetThenGetInteger | xspublic/xstypes/xsmessage.c:648-681 | an integer getter after the setter of the same size at the same offset returns the value set |
| Values.RawAt | xspublic/xstypes/xsmessage.c:845-869 | the value read has the shape of the layout (16.32: a four-byte fraction word and a two-byte integer word); Values.RawAtIsUnwire relates it to the stored bytes |
| Values.StoreRaw | xspublic/xstypes/xsmessage.c:886-908 | no contract of its own: one value stored by its setter(s); Values.StoreRawFacts states its properties |
| Values.ReadValues | xspublic/xstypes/xsmessage.c:841-873 | `count` values, each with the shape of the layout |
| Values.StoreValues | xspublic/xstypes/xsmessage.c:882-913 | no contract of its own: the setter loop on frames; Values.StoreValuesFacts and Values.StoreValuesThenRead state its properties |
| Hex.HexTextLength | xspublic/xstypes/xsmessage.c:1353-1362 | `n` bytes become `3n - 1` characters, none for no bytes |
| Hex.HexTextAt | xspublic/xstypes/xsmessage.c:1357-1359 | byte `k` is at characters 3k and 3k+1 as two upper-case hex digits, followed by a space unless it is the last |
| Hex.ParseHexText | xspublic/xstypes/xsmessage.c:1346-1363 | the bytes can be read back from the hex text |
| Hex.FormatHex | xspublic/xstypes/xsmessage.c:1357-1359 | the formatting loop produces the hex text of the bytes |
| Messages.Message.ComputeChecksum | xspublic/xstypes/xsmessage.c:1017-1027 | the subtracting loop returns the negated byte sum of indices 1 through total size - 2 |
| Messages.Message.RecomputeChecksum | xspublic/xstypes/xsmessage.c:1031-1035 | the computed checksum is stored at the derived checksum address, nothing else changes |
| Messages.Message.IsChecksumOk | xspublic/xstypes/xsmessage.c:1051-1055 | true exactly when the byte at the checksum address equals computeChecksum |
| Messages.Message.Load | xspublic/xstypes/xsmessage.c:389-393 | the buffer becomes a copy of the source bytes |
| Messages.Message.Copy | xspublic/xstypes/xsmessage.c:407-412 | the copy takes the source's buffer and auto-checksum flag, the source is unchanged |
| Messages.Message.Destruct | xspublic/xstypes/xsmessage.c:398-402 | the buffer is released |
| Messages.Message.SizedBuffer | xspublic/xstypes/xsmessage.c:314-358 | the writes of constructSized produce the encoding of the master frame with `n` zero bytes |
| Messages.Message.ConstructSized | xspublic/xstypes/xsmessage.c:314-360 | the buffer is the encoding of the sealed constructSized frame |
| Messages.Message.CopyLoop | xspublic/xstypes/xsmessage.c:1113-1114 | a byte-by-byte copy loop writes the source bytes into the payload range and nothing else |
| Messages.Message.ResizeData | xspublic/xstypes/xsmessage.c:1086-1120 | an absent buffer stays absent; otherwise the buffer is the encoding of the resized frame |
| Messages.Message.InsertData | xspublic/xstypes/xsmessage.c:1207-1257 | the buffer is the encoding of the frame with the bytes inserted |
| Messages.Message.DeleteData | xspublic/xstypes/xsmessage.c:1264-1306 | the buffer is the encoding of the frame with the bytes deleted, the middle-branch checksum patched as written |
| Messages.Message.SetBusId | xspublic/xstypes/xsmessage.c:1128-1142 | an absent buffer is constructed first; the bus id is written and the checksum patched in place |
| Messages.Message.SetMessageId | xspublic/xstypes/xsmessage.c:1148-1200 | an absent buffer is constructed first; the id is rewritten in place or the payload moved by two bytes, then the checksum recomputed |
| Messages.Message.WidenId | xspublic/xstypes/xsmessage.c:1167-1181 | resize by two, move the payload up, write the extended id |
| Messages.Message.NarrowId | xspublic/xstypes/xsmessage.c:1182-1196 | move the payload down over the id bytes, write the short id, resize to drop two bytes |
| Messages.Message.EnsureDataSize | xspublic/xstypes/xsmessage.c:225-229 | the payload is resized to `offset + size` when shorter, else kept |
| Messages.Message.PayloadByteSum | xspublic/xstypes/xsmessage.c:240 | byteSum of the payload bytes about to be replaced |
| Messages.Message.UpdateChecksumWithValue | xspublic/xstypes/xsmessage.c:236-243 | with auto-checksum on the checksum gains the old bytes' sum and loses the new value's sum; off, nothing changes |
| Messages.Message.SwapInPlace | xspublic/xstypes/xsmessage.c:249-282 | swapEndian on the payload bytes at `offset` reverses them in place |
| Messages.Message.SetEndianCorrectData | xspublic/xstypes/xsmessage.c:300-308 | the buffer is the encoding of the frame grown, patched and holding the value's bytes reversed |
| Messages.Message.SetDataBuffer | xspublic/xstypes/xsmessage.c:774-779 | the same as setEndianCorrectData for a byte buffer copied without swapping |
| Messages.Message.GetEndianCorrectData | xspublic/xstypes/xsmessage.c:289-293 | the `size` payload bytes at `offset`, reversed |
| Messages.Message.GetDataByte | xspublic/xstypes/xsmessage.c:524-527 | the payload byte at `offset` |
| Messages.Message.GetDataInteger | xspublic/xstypes/xsmessage.c:535-566 | the big-endian value of the payload bytes at `offset` |
| Messages.Message.SetDataInteger | xspublic/xstypes/xsmessage.c:648-681 | setEndianCorrectData of the host bytes of the value |
| Messages.Message.GetFPValue | xspublic/xstypes/xsmessage.c:845-869 | one raw value read in its sub-format's layout at `offset` |
| Messages.Message.GetDataFPValuesById | xspublic/xstypes/xsmessage.c:841-873 | the loop returns the `count` raw values read from `offset` on with the identifier's stride |
| Messages.Message.StoreFPValue | xspublic/xstypes/xsmessage.c:886-908 | one raw value written with its sub-format's setter(s) |
| Messages.Message.SetDataFPValuesById | xspublic/xstypes/xsmessage.c:882-913 | the loop leaves the encoding of all values stored from `offset` on with the identifier's stride |
| Messages.Message.Swap | xspublic/xstypes/xsmessage.c:1316-1330 | the two messages exchange buffers and auto-checksum flags |
| Messages.Message.ToHexString | xspublic/xstypes/xsmessage.c:1346-1363 | the hex text of the first min(maxBytes, total) bytes (all of them for 0): `3n - 1` characters that read back as those bytes |
| Messages.Message.ConstructFor | xspublic/xstypes/xsmessage.c:1102-1106 | the buffer is the encoding of a fresh zeroed frame of size `n` and id `id` carrying the old preamble and bus id |
| Messages.Message.SealIfAuto | xspublic/xstypes/xsmessage.c:1116-1117 | the buffer encodes the sealed frame with auto-checksum on and the frame unchanged with it off |
| Messages.Message.Rebuild | xspublic/xstypes/xsmessage.c:1102-1117 | the rebuilding branch leaves the encoding of the resized frame |
| Messages.Message.CopyFrom | xspublic/xstypes/xsmessage.c:1113-1114 | the copy of old payload bytes [from, from + len) into the new payload at `dstAt` leaves the encoding of the new frame with those bytes spliced in |
| Messages.Message.InsertRebuild | xspublic/xstypes/xsmessage.c:1228-1254 | the rebuilding part of insertData leaves the encoding of the inserted frame |
| Messages.Message.InsertWithin | xspublic/xstypes/xsmessage.c:1238-1251 | for an offset within the old data, the two copy loops leave the encoding of the fresh frame holding the inserted payload |
| Messages.Message.InsertPast | xspublic/xstypes/xsmessage.c:1243-1251 | for an offset past the old data, the copy and zero-fill loops leave the encoding of the fresh frame holding the inserted payload |
| Messages.Message.ZeroFill | xspublic/xstypes/xsmessage.c:1247-1248 | the zero-fill loop leaves the encoding of the frame with zeros spliced in at `at` |
| Messages.Message.DeleteRebuild | xspublic/xstypes/xsmessage.c:1288-1303 | the rebuilding branch of deleteData leaves the encoding of the deleted frame as written |
| Messages.Message.DeleteCopies | xspublic/xstypes/xsmessage.c:1297-1300 | the two copy loops of deleteData leave the encoding of the fresh frame holding the payload without the deleted range |
| Messages.Message.DeleteTail | xspublic/xstypes/xsmessage.c:1299-1300 | the second copy loop of deleteData completes the payload without the deleted range |
| Messages.Message.PatchDeleteChecksum | xspublic/xstypes/xsmessage.c:1302-1303 | the checksum byte loses the byte sum of the new payload and nothing else changes |
| Messages.Message.WriteBusId | xspublic/xstypes/xsmessage.c:1137-1141 | the checksum patches and the bus id write leave the encoding of setBusId on frames |
| Messages.Message.MoveUp | xspublic/xstypes/xsmessage.c:1176-1180 | the memmove by two and the id write leave the encoding of the frame with the wide id and the payload without the two bytes of room |
| Messages.Message.CopyToPayload | xspublic/xstypes/xsmessage.c:305-306 | the memcpy leaves the encoding of the frame with the bytes spliced in at `offset` |
| Messages.Message.StoreSwapped | xspublic/xstypes/xsmessage.c:300-308 | the growth and write of setEndianCorrectData leave the encoding of the store of the swapped value |
| Messages.Message.WriteSwapped | xspublic/xstypes/xsmessage.c:304-307 | the checksum patch, copy and in-place swap leave the encoding of the patch with the swapped value |
| Messages.Message.StoreBuffer | xspublic/xstypes/xsmessage.c:774-779 | the growth and write of setDataBuffer leave the encoding of the store of the buffer |
| Messages.Message.WriteBuffer | xspublic/xstypes/xsmessage.c:777-778 | the checksum patch and copy leave the encoding of the patch with the buffer |
| Messages.Message.ReadNextValue | xspublic/xstypes/xsmessage.c:845-871 | one getter iteration appends the value at the current offset and advances the index by one and the offset by the width |
| Messages.Message.StoreFp1632 | xspublic/xstypes/xsmessage.c:763-764 | the long then the short setter leave the encoding of the fraction word stored at `offset` and the integer word four bytes on |
| Messages.Message.StoreValuesLoop | xspublic/xstypes/xsmessage.c:884-912 | the setter loop leaves the encoding of all values stored from `offset` on |
| Messages.Message.StoreNextValue | xspublic/xstypes/xsmessage.c:886-908 | one setter iteration leaves the encoding of the value stored at the current offset and advances the index by one and the offset by the width |

## Left out

- Floating-point conversion is not modelled. This covers convertFromFloat and
  convertToFloat, the 12.20 and 16.32 arithmetic, the float and double getters and the
  XSENS_SINGLE_PRECISION variants. Values are their raw bit patterns in the layout each
  sub-format uses.
- The `...ValuesById` loops move raw values, not doubles. The floating-point getters and
  setters of xsmessage.c are not part of this model beyond that layout.
- XsMessage_getDataRealValuesById and setDataRealValuesById (xsmessage.c:924-1012) are
  not modelled. On raw values they are the same loops as the `...FPValuesById` pair, and
  they differ only in the XsReal conversions.
- XsMessage_copyConstruct is not modelled. It is Copy, or constructSized(0, 0) for a
  missing source.
- The pointer accessors getHeader, getConstHeader, constData, getMessageStart and
  getDataBuffer are not modelled as operations. Their positions are the readers
  HeaderDataPtr and PayloadStart.
- getFPValueSize's `default: return 0` is unreachable: the two masked bits always select
  one of the four sub-formats. The loops' `default` branch is unreachable for the same
  reason.
- The host is taken to be little-endian. A host value of `n` bytes is `LeBytes(v, n)`.
- XsMessage_compare is not modelled. It calls XsArray_compare, which is not part of this
  model.
- The XsArray and XsByteArray internals, XsString_resize, allocation failure and the
  `m_checksum` pointer are not modelled. The buffer is a sequence and an absent buffer is
  the empty sequence. The checksum address is derived from the header each time.
- The xsvector2 wrappers and the XsensReader example program are left out. They are I/O,
  threads and calls into code that is not part of this model.
- XMID_EXTENDED_MESSAGE_ID (0xFE) and XMID_INVALID_MESSAGE (0xFFFF) are chosen values,
  because the header that defines them is not part of this model. The proofs rely only on
  the extended-id sentinel being a one-byte id other than 0 and other than 0x10, the id
  that Header.DeclaredSizeUnchecked, Edits.DeleteAsWrittenCounterexample and
  Edits.SetMessageIdAcrossBoundary use in their example messages.
- Messages.Message.ConstructSized: requires an id other than the extended-id sentinel and
  a data size that fits XS_MAXMSGLEN. The source checks neither. It writes the sentinel as
  a one-byte id, which the readers then take as the start of a two-byte extended id (see
  Edits.SentinelIdInPlace). For a larger size it writes an extended length that
  XsMessageHeader_dataSize reads as 0, so updateChecksumAddress places the checksum at the
  data pointer.
- Messages.Message.SizedBuffer: the same two exclusions as ConstructSized, whose buffer
  writes it models, for the same reasons.
- Messages.Message.GetEndianCorrectData: requires the whole field inside the payload. The
  source only asserts `offset < dataSize` and would read past the data otherwise.
- Messages.Message.GetDataByte: requires a canonical buffer. The source only asserts a
  buffer and `offset < dataSize`.
- Messages.Message.GetDataInteger: requires the whole field inside the payload and a
  canonical buffer.
- Messages.Message.GetFPValue: requires the whole value inside the payload.
- Messages.Message.GetDataFPValuesById: requires all values inside the payload.
- Messages.Message.SetEndianCorrectData: requires a canonical buffer. It also requires the
  grown data to fit XS_MAXMSGLEN, beyond which constructSized would write a length the
  readers reject.
- Messages.Message.SetDataBuffer: same preconditions as SetEndianCorrectData. An empty
  buffer needs `offset < dataSize`, because the source asserts that.
- Messages.Message.SetDataInteger: same preconditions as SetEndianCorrectData.
- Messages.Message.SetDataFPValuesById: same preconditions as SetEndianCorrectData, for
  every value stored.
- Messages.Message.ResizeData: requires an absent or canonical buffer, and a new size that
  fits XS_MAXMSGLEN.
- Messages.Message.InsertData: requires an absent or canonical buffer, and a new size that
  fits XS_MAXMSGLEN.
- Messages.Message.DeleteData: requires an absent or canonical buffer.
- Messages.Message.SetBusId: requires an absent or canonical buffer.
- Messages.Message.SetMessageId: requires an absent or canonical buffer and a new size that
  fits XS_MAXMSGLEN. It also requires an id other than the extended-id sentinel, because
  the source would then write the sentinel in place (see Edits.SentinelIdInPlace).
- Messages.Message.ToHexString: requires the buffer to hold the total size its header
  declares. The source reads `maxBytes` bytes without checking the buffer length.
- Messages.Message.IsChecksumOk and RecomputeChecksum: require a readable header and the
  checksum address inside the buffer. The source asserts only that the address is set.
- Messages.Message.DeleteData models the source as written, with the wrong checksum patch
  described under Findings. The corrected operation is Edits.Delete.

## Findings

| source | as written | input that shows it | evidently intended | confidence | as-written member | corrected member |
|---|---|---|---|---|---|---|
| xspublic/xstypes/xsmessage.c:1291-1303 | the middle branch of deleteData builds a master-bus message, copies the old bus id over it, then patches the checksum by subtracting only the new data's byte sum, so the bus id change is never accounted for | auto-checksum on, bus id 0x01, message id 0x10, data [1, 2, 3], deleteData(count 1, offset 0): the checksum no longer makes the byte sum 0 | the checksum is valid after every edit with auto-checksum on, as resizeData, insertData and setBusId keep it | not executed | Edits.DeleteAsWrittenCounterexample | Edits.DeleteFacts |
