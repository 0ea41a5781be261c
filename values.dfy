/** The floating/fixed point fields of xsmessage.c as raw bit patterns: the size of one
    value by the sub-format of its data identifier (getFPValueSize), the field(s) one value
    occupies, and the stride the ...ValuesById loops advance by. Floating-point conversion
    itself is not modelled: a value is the host-order bytes its getter would reinterpret. */
module Values {
  import opened Bytes
  import opened Xbus
  import opened Frames
  import opened Edits

  /** The sub-format bits of a data identifier. */
  function Format(id: bv16): (fmt: bv16)
    ensures fmt == XDI_SUB_FORMAT_FLOAT || fmt == XDI_SUB_FORMAT_FP1220
         || fmt == XDI_SUB_FORMAT_FP1632 || fmt == XDI_SUB_FORMAT_DOUBLE
  {
    id & XDI_SUB_FORMAT_MASK
  }

  /** XsMessage_getFPValueSize (xsmessage.c:787-806): bytes per value of the sub-format. */
  function FPValueSize(id: bv16): (r: nat)
    ensures r == 8 <==> Format(id) == XDI_SUB_FORMAT_DOUBLE
    ensures r == 6 <==> Format(id) == XDI_SUB_FORMAT_FP1632
    ensures r == 4 <==> Format(id) == XDI_SUB_FORMAT_FLOAT || Format(id) == XDI_SUB_FORMAT_FP1220
  {
    var fmt := Format(id);
    if fmt == XDI_SUB_FORMAT_FLOAT then 4
    else if fmt == XDI_SUB_FORMAT_DOUBLE then 8
    else if fmt == XDI_SUB_FORMAT_FP1632 then 6
    else 4
  }

  /** The four ways a value can sit in the payload, one per sub-format. */
  datatype Layout = FloatLayout | Fp1220Layout | Fp1632Layout | DoubleLayout

  /** The layout the sub-format bits of `id` select. */
  function LayoutOf(id: bv16): (l: Layout)
    ensures l == DoubleLayout <==> Format(id) == XDI_SUB_FORMAT_DOUBLE
    ensures l == Fp1632Layout <==> Format(id) == XDI_SUB_FORMAT_FP1632
    ensures l == Fp1220Layout <==> Format(id) == XDI_SUB_FORMAT_FP1220
  {
    var fmt := Format(id);
    if fmt == XDI_SUB_FORMAT_FLOAT then FloatLayout
    else if fmt == XDI_SUB_FORMAT_DOUBLE then DoubleLayout
    else if fmt == XDI_SUB_FORMAT_FP1632 then Fp1632Layout
    else Fp1220Layout
  }

  /** The bytes one value of a layout occupies. */
  function Width(l: Layout): nat
  {
    match l
    case FloatLayout => 4
    case Fp1220Layout => 4
    case Fp1632Layout => 6
    case DoubleLayout => 8
  }

  /** getFPValueSize is the width of the layout the identifier selects. */
  lemma FPValueSizeIsWidth(id: bv16)
    ensures FPValueSize(id) == Width(LayoutOf(id))
  {
  }

  /** One value in host byte order, before any floating-point interpretation: a float or a
      double as its IEEE bits, a 12.20 fixed point number as its 32-bit word, a 16.32 one as
      its 32-bit fraction word and 16-bit integer word. */
  datatype RawValue =
    | FloatBits(bits: seq<byte>)
    | DoubleBits(bits: seq<byte>)
    | Fp1220Bits(bits: seq<byte>)
    | Fp1632Bits(fraction: seq<byte>, integer: seq<byte>)

  /** A value of the shape layout `l` reads and writes. */
  predicate Shaped(v: RawValue, l: Layout)
  {
    match v
    case FloatBits(b) => l == FloatLayout && |b| == 4
    case DoubleBits(b) => l == DoubleLayout && |b| == 8
    case Fp1220Bits(b) => l == Fp1220Layout && |b| == 4
    case Fp1632Bits(fr, it) => l == Fp1632Layout && |fr| == 4 && |it| == 2
  }

  /** One iteration of getDataFPValuesById (xsmessage.c:841-872): the value at payload
      offset `at`; the 16.32 layout keeps the fraction word at `at` and the integer word at
      `at + 4`. */
  function RawAt(f: Frame, l: Layout, at: nat): (v: RawValue)
    requires at + Width(l) <= |f.payload|
    ensures Shaped(v, l)
  {
    match l
    case FloatLayout => FloatBits(ReadField(f, at, 4))
    case DoubleLayout => DoubleBits(ReadField(f, at, 8))
    case Fp1632Layout => Fp1632Bits(ReadField(f, at, 4), ReadField(f, at + 4, 2))
    case Fp1220Layout => Fp1220Bits(ReadField(f, at, 4))
  }

  /** One iteration of setDataFPValuesById (xsmessage.c:882-911): the setter(s) the
      sub-format calls at payload offset `at`. */
  function StoreRaw(f: Frame, l: Layout, v: RawValue, at: nat, auto: bool): Frame
    requires Shaped(v, l)
  {
    match v
    case FloatBits(b) => Store(f, at, SwapEndian(b), auto)
    case DoubleBits(b) => Store(f, at, SwapEndian(b), auto)
    case Fp1220Bits(b) => Store(f, at, SwapEndian(b), auto)
    case Fp1632Bits(fr, it) => Store(Store(f, at, SwapEndian(fr), auto), at + 4, SwapEndian(it), auto)
  }

  /** The bytes `count` values of `n` bytes span, added up value by value as the loops of
      getDataFPValuesById and setDataFPValuesById advance their offset. */
  function Span(n: nat, count: nat): nat
  {
    if count == 0 then 0 else Span(n, count - 1) + n
  }

  /** Value `j` ends no later than value `i` starts, for every earlier `j`. */
  lemma {:induction false} SpanMono(n: nat, j: nat, i: nat)
    requires j < i
    ensures Span(n, j) + n <= Span(n, i)
    decreases i
  {
    if j < i - 1 {
      SpanMono(n, j, i - 1);
    }
  }

  /** The `count` byte strings of `n` bytes each lying one after the other from `at`. */
  function Slices(p: seq<byte>, n: nat, at: nat, count: nat): (ws: seq<seq<byte>>)
    requires count == 0 || at + Span(n, count) <= |p|
    ensures |ws| == count && forall k :: 0 <= k < count ==> |ws[k]| == n
    decreases count
  {
    if count == 0 then []
    else Slices(p, n, at, count - 1) + [p[at + Span(n, count - 1)..at + Span(n, count)]]
  }

  /** The values the wire strings `ws` hold, one by one. */
  function Unwires(ws: seq<seq<byte>>, l: Layout): (vs: seq<RawValue>)
    requires forall k :: 0 <= k < |ws| ==> |ws[k]| == Width(l)
    ensures |vs| == |ws| && forall k :: 0 <= k < |vs| ==> Shaped(vs[k], l)
    decreases |ws|
  {
    if |ws| == 0 then [] else Unwires(ws[..|ws| - 1], l) + [Unwire(ws[|ws| - 1], l)]
  }

  /** The getDataFPValuesById loop (xsmessage.c:841-873): `count` values read from `at` on,
      value `j` from the Width(l) bytes at `at + Span(Width(l), j)`. */
  function ReadValues(f: Frame, l: Layout, at: nat, count: nat): (vs: seq<RawValue>)
    requires count == 0 || at + Span(Width(l), count) <= |f.payload|
    ensures |vs| == count && forall k :: 0 <= k < count ==> Shaped(vs[k], l)
  {
    Unwires(Slices(f.payload, Width(l), at, count), l)
  }

  /** One more iteration of the getter loop appends the value at the next offset. */
  lemma ReadValuesStep(f: Frame, l: Layout, at: nat, i: nat)
    requires at + Span(Width(l), i + 1) <= |f.payload|
    ensures at + Span(Width(l), i) + Width(l) <= |f.payload|
    ensures ReadValues(f, l, at, i + 1) == ReadValues(f, l, at, i) + [RawAt(f, l, at + Span(Width(l), i))]
  {
    var n := Width(l);
    var ws := Slices(f.payload, n, at, i);
    var w := f.payload[at + Span(n, i)..at + Span(n, i + 1)];
    assert Slices(f.payload, n, at, i + 1) == ws + [w];
    assert (ws + [w])[..i] == ws;
    RawAtIsUnwire(f, l, at + Span(n, i));
  }

  /** The wire bytes of one value: each word most significant byte first, as
      setEndianCorrectData leaves it; a 16.32 value is its fraction word then its integer
      word. */
  function Wire(v: RawValue, l: Layout): (w: seq<byte>)
    requires Shaped(v, l)
    ensures |w| == Width(l)
  {
    match v
    case FloatBits(b) => SwapEndian(b)
    case DoubleBits(b) => SwapEndian(b)
    case Fp1220Bits(b) => SwapEndian(b)
    case Fp1632Bits(fr, it) => SwapEndian(fr) + SwapEndian(it)
  }

  /** The value `n` wire bytes hold: each word byte-swapped back to host order. */
  function Unwire(w: seq<byte>, l: Layout): (v: RawValue)
    requires |w| == Width(l)
    ensures Shaped(v, l)
  {
    match l
    case FloatLayout => FloatBits(SwapEndian(w))
    case DoubleLayout => DoubleBits(SwapEndian(w))
    case Fp1632Layout => Fp1632Bits(SwapEndian(w[..4]), SwapEndian(w[4..]))
    case Fp1220Layout => Fp1220Bits(SwapEndian(w))
  }

  /** A value survives the trip to the wire and back. */
  lemma UnwireWire(v: RawValue, l: Layout)
    requires Shaped(v, l)
    ensures Unwire(Wire(v, l), l) == v
  {
    match v
    case FloatBits(b) => SwapEndianInvolution(b);
    case DoubleBits(b) => SwapEndianInvolution(b);
    case Fp1220Bits(b) => SwapEndianInvolution(b);
    case Fp1632Bits(fr, it) =>
      SwapEndianInvolution(fr);
      SwapEndianInvolution(it);
      var w := SwapEndian(fr) + SwapEndian(it);
      assert w[..4] == SwapEndian(fr) && w[4..] == SwapEndian(it);
  }

  /** The value one iteration of the getter reads is the value its bytes hold. */
  lemma RawAtIsUnwire(f: Frame, l: Layout, at: nat)
    requires at + Width(l) <= |f.payload|
    ensures RawAt(f, l, at) == Unwire(f.payload[at..at + Width(l)], l)
  {
    var w := f.payload[at..at + Width(l)];
    if l == Fp1632Layout {
      assert f.payload[at..at + 4] == w[..4] && f.payload[at + 4..at + 6] == w[4..];
    }
  }

  /** The wire bytes of each value of `vs`. */
  function Wires(vs: seq<RawValue>, l: Layout): (ws: seq<seq<byte>>)
    requires forall k :: 0 <= k < |vs| ==> Shaped(vs[k], l)
    ensures |ws| == |vs| && forall k :: 0 <= k < |ws| ==> |ws[k]| == Width(l)
    decreases |vs|
  {
    if |vs| == 0 then [] else Wires(vs[..|vs| - 1], l) + [Wire(vs[|vs| - 1], l)]
  }

  /** String `k` of Wires(vs, l) is the wire image of value `k`. */
  lemma {:induction false} WiresAt(vs: seq<RawValue>, l: Layout, k: nat)
    requires (forall j :: 0 <= j < |vs| ==> Shaped(vs[j], l)) && k < |vs|
    ensures Wires(vs, l)[k] == Wire(vs[k], l)
    decreases |vs|
  {
    if k < |vs| - 1 {
      WiresAt(vs[..|vs| - 1], l, k);
    }
  }

  /** The byte strings `ws` one after the other. */
  function Concat(ws: seq<seq<byte>>): seq<byte>
    decreases |ws|
  {
    if |ws| == 0 then [] else Concat(ws[..|ws| - 1]) + ws[|ws| - 1]
  }

  /** `count` strings of `n` bytes each take Span(n, count) bytes. */
  lemma {:induction false} ConcatLength(ws: seq<seq<byte>>, n: nat)
    requires forall k :: 0 <= k < |ws| ==> |ws[k]| == n
    ensures |Concat(ws)| == Span(n, |ws|)
    decreases |ws|
  {
    if |ws| > 0 {
      ConcatLength(ws[..|ws| - 1], n);
    }
  }

  /** The bytes `c` laid into payload `p` from offset `at`, as the setters leave them:
      over bytes of `p`, past its end, or after a gap of zeros when `at` lies beyond it;
      `p` itself when `c` is empty. */
  function Laid(p: seq<byte>, at: nat, c: seq<byte>): (r: seq<byte>)
    ensures |r| == if |c| == 0 then |p| else Max(|p|, at + |c|)
  {
    if |c| == 0 then p
    else if at + |c| <= |p| then p[..at] + c + p[at + |c|..]
    else if at <= |p| then p[..at] + c
    else p + Zeros(at - |p|) + c
  }

  /** Byte `k` of the laid payload: from `c` inside it, from `p` before `p`'s end, and
      zero in the gap between. */
  lemma LaidAt(p: seq<byte>, at: nat, c: seq<byte>, k: nat)
    requires |c| > 0 && k < |Laid(p, at, c)|
    ensures Laid(p, at, c)[k] == if at <= k < at + |c| then c[k - at] else if k < |p| then p[k] else 0
  {
    if |p| < at && |p| <= k < at {
      assert (p + Zeros(at - |p|))[k] == Zeros(at - |p|)[k - |p|];
    }
  }

  /** Laying `w` right after `c` is laying `c + w`. */
  lemma LaidStep(p: seq<byte>, at: nat, c: seq<byte>, w: seq<byte>)
    requires |w| > 0
    ensures Laid(Laid(p, at, c), at + |c|, w) == Laid(p, at, c + w)
  {
    if |c| == 0 {
      assert c + w == w;
    } else {
      var a, b := Laid(Laid(p, at, c), at + |c|, w), Laid(p, at, c + w);
      assert |a| == |b|;
      forall k | 0 <= k < |a|
        ensures a[k] == b[k]
      {
        LaidAt(Laid(p, at, c), at + |c|, w, k);
        LaidAt(p, at, c + w, k);
        if k < |Laid(p, at, c)| {
          LaidAt(p, at, c, k);
        }
      }
    }
  }

  /** The laid bytes are where they were laid. */
  lemma LaidHolds(p: seq<byte>, at: nat, c: seq<byte>)
    requires |c| > 0
    ensures at + |c| <= |Laid(p, at, c)| && Laid(p, at, c)[at..at + |c|] == c
  {
    forall k | at <= k < at + |c|
      ensures Laid(p, at, c)[k] == c[k - at]
    {
      LaidAt(p, at, c, k);
    }
  }

  /** A store writes exactly the bytes it is given: its payload is them laid into the old
      one. */
  lemma StorePayload(f: Frame, at: nat, bytes: seq<byte>, auto: bool)
    requires |bytes| > 0
    requires ValidFrame(f) && Fits(Max(|f.payload|, at + |bytes|), f.messageId)
    ensures var r := Store(f, at, bytes, auto);
      && ValidFrame(r) && r.preamble == f.preamble && r.busId == f.busId && r.messageId == f.messageId
      && r.payload == Laid(f.payload, at, bytes)
  {
    var r := Store(f, at, bytes, auto);
    StoreFacts(f, at, bytes, auto);
    forall k | 0 <= k < |r.payload|
      ensures r.payload[k] == Laid(f.payload, at, bytes)[k]
    {
      LaidAt(f.payload, at, bytes, k);
      if at <= k < at + |bytes| {
        assert r.payload[k] == r.payload[at..at + |bytes|][k - at];
      }
    }
  }

  /** `count` strings of `n` bytes laid one after the other from `at` are the slices the
      getter reads. */
  lemma {:induction false} SlicesOfConcat(q: seq<byte>, ws: seq<seq<byte>>, n: nat, at: nat)
    requires forall k :: 0 <= k < |ws| ==> |ws[k]| == n
    requires at + Span(n, |ws|) <= |q| && q[at..at + Span(n, |ws|)] == Concat(ws)
    ensures Slices(q, n, at, |ws|) == ws
    decreases |ws|
  {
    if |ws| > 0 {
      var m := |ws| - 1;
      var front := ws[..m];
      ConcatLength(front, n);
      var whole := q[at..at + Span(n, |ws|)];
      assert whole == Concat(front) + ws[m];
      assert q[at..at + Span(n, m)] == whole[..Span(n, m)];
      SlicesOfConcat(q, front, n, at);
      assert q[at + Span(n, m)..at + Span(n, |ws|)] == whole[Span(n, m)..];
      assert ws == front + [ws[m]];
    }
  }

  /** Value `k` read from wire strings is read from string `k` alone. */
  lemma {:induction false} UnwiresAt(ws: seq<seq<byte>>, l: Layout, k: nat)
    requires (forall j :: 0 <= j < |ws| ==> |ws[j]| == Width(l)) && k < |ws|
    ensures Unwires(ws, l)[k] == Unwire(ws[k], l)
    decreases |ws|
  {
    if k < |ws| - 1 {
      UnwiresAt(ws[..|ws| - 1], l, k);
    }
  }

  /** A list of values survives the trip to the wire and back. */
  lemma UnwiresWires(vs: seq<RawValue>, l: Layout)
    requires forall k :: 0 <= k < |vs| ==> Shaped(vs[k], l)
    ensures Unwires(Wires(vs, l), l) == vs
  {
    var ws := Wires(vs, l);
    forall k | 0 <= k < |vs|
      ensures Unwires(ws, l)[k] == vs[k]
    {
      UnwiresAt(ws, l, k);
      WiresAt(vs, l, k);
      UnwireWire(vs[k], l);
    }
  }

  /** One setEndianCorrectData store of host bytes `b` at `at`: the field's wire bytes laid
      into the payload and, with auto-checksum on, a sealed message still sealed. */
  lemma StoreFieldFacts(f: Frame, at: nat, b: seq<byte>, auto: bool)
    requires |b| in {1, 2, 4, 8}
    requires ValidFrame(f) && Fits(Max(|f.payload|, at + |b|), f.messageId)
    ensures var r := Store(f, at, SwapEndian(b), auto);
      && ValidFrame(r) && r.preamble == f.preamble && r.busId == f.busId && r.messageId == f.messageId
      && r.payload == Laid(f.payload, at, SwapEndian(b))
      && (auto && Sealed(f) ==> Sealed(r))
  {
    StorePayload(f, at, SwapEndian(b), auto);
    if auto && Sealed(f) {
      StoreKeepsSeal(f, at, SwapEndian(b));
    }
  }

  /** After the fraction word of a 16.32 value is stored, the frame is valid and still
      has room for the integer word four bytes on. */
  lemma Fp1632Room(f: Frame, at: nat, fr: seq<byte>, it: seq<byte>, auto: bool)
    requires |fr| == 4 && |it| == 2
    requires ValidFrame(f) && Fits(Max(|f.payload|, at + 6), f.messageId)
    ensures var g := Store(f, at, SwapEndian(fr), auto);
      ValidFrame(g) && g.messageId == f.messageId && Fits(Max(|g.payload|, at + 4 + |it|), g.messageId)
  {
    StoreFieldFacts(f, at, fr, auto);
  }

  /** The two stores of a 16.32 value: the fraction word, then the integer word after it,
      together lay both words. */
  lemma StoreFp1632Facts(f: Frame, at: nat, fr: seq<byte>, it: seq<byte>, auto: bool)
    requires |fr| == 4 && |it| == 2
    requires ValidFrame(f) && Fits(Max(|f.payload|, at + 6), f.messageId)
    ensures var r := Store(Store(f, at, SwapEndian(fr), auto), at + 4, SwapEndian(it), auto);
      && ValidFrame(r) && r.preamble == f.preamble && r.busId == f.busId && r.messageId == f.messageId
      && r.payload == Laid(f.payload, at, SwapEndian(fr) + SwapEndian(it))
      && (auto && Sealed(f) ==> Sealed(r))
  {
    var s1 := Store(f, at, SwapEndian(fr), auto);
    var r := Store(s1, at + 4, SwapEndian(it), auto);
    assert ValidFrame(s1) && s1.payload == Laid(f.payload, at, SwapEndian(fr))
        && s1.preamble == f.preamble && s1.busId == f.busId && s1.messageId == f.messageId
        && (auto && Sealed(f) ==> Sealed(s1)) by {
      StoreFieldFacts(f, at, fr, auto);
    }
    assert ValidFrame(r) && r.payload == Laid(s1.payload, at + 4, SwapEndian(it))
        && r.preamble == s1.preamble && r.busId == s1.busId && r.messageId == s1.messageId
        && (auto && Sealed(s1) ==> Sealed(r)) by {
      StoreFieldFacts(s1, at + 4, it, auto);
    }
    var a, b := SwapEndian(fr), SwapEndian(it);
    assert |a| == 4;
    assert r.payload == Laid(Laid(f.payload, at, a), at + |a|, b);
    LaidStep(f.payload, at, a, b);
  }

  /** Storing one value lays exactly its wire bytes and, with auto-checksum on, keeps a
      sealed message sealed. */
  lemma StoreRawFacts(f: Frame, l: Layout, v: RawValue, at: nat, auto: bool)
    requires ValidFrame(f) && Shaped(v, l) && Fits(Max(|f.payload|, at + Width(l)), f.messageId)
    ensures var r := StoreRaw(f, l, v, at, auto);
      && ValidFrame(r) && r.preamble == f.preamble && r.busId == f.busId && r.messageId == f.messageId
      && r.payload == Laid(f.payload, at, Wire(v, l))
      && (auto && Sealed(f) ==> Sealed(r))
  {
    match v
    case FloatBits(b) => StoreFieldFacts(f, at, b, auto);
    case DoubleBits(b) => StoreFieldFacts(f, at, b, auto);
    case Fp1220Bits(b) => StoreFieldFacts(f, at, b, auto);
    case Fp1632Bits(fr, it) => StoreFp1632Facts(f, at, fr, it, auto);
  }

  /** The setDataFPValuesById loop (xsmessage.c:882-913) from frame `f` on: the values of
      `vs` stored in order, the first at payload offset `at`, each next one Width(l) bytes
      further, each by the setter(s) of layout `l`. */
  function StoreValues(f: Frame, l: Layout, vs: seq<RawValue>, at: nat, auto: bool): Frame
    requires forall k :: 0 <= k < |vs| ==> Shaped(vs[k], l)
    decreases |vs|
  {
    if |vs| == 0 then f
    else StoreValues(StoreRaw(f, l, vs[0], at, auto), l, vs[1..], at + Width(l), auto)
  }

  /** The wire image of a non-empty list is the first value's wire bytes, then the rest's. */
  lemma {:induction false} ConcatWiresFront(vs: seq<RawValue>, l: Layout)
    requires (forall k :: 0 <= k < |vs| ==> Shaped(vs[k], l)) && |vs| > 0
    ensures Concat(Wires(vs, l)) == Wire(vs[0], l) + Concat(Wires(vs[1..], l))
    decreases |vs|
  {
    var m := |vs| - 1;
    if m == 0 {
      assert Wires(vs, l) == [Wire(vs[0], l)];
      assert Wires(vs[1..], l) == [];
    } else {
      var front, tail := vs[..m], vs[1..];
      var ws, wt := Wires(vs, l), Wires(tail, l);
      var last := Wire(vs[m], l);
      assert ws[..m] == Wires(front, l) && ws[m] == last;
      assert Concat(ws) == Concat(Wires(front, l)) + last;
      ConcatWiresFront(front, l);
      assert tail[..m - 1] == front[1..] && tail[m - 1] == vs[m];
      assert wt[..m - 1] == Wires(front[1..], l) && wt[m - 1] == last;
      assert Concat(wt) == Concat(Wires(front[1..], l)) + last;
      assert front[0] == vs[0];
      AppendAssoc(Wire(vs[0], l), Concat(Wires(front[1..], l)), last);
    }
  }

  /** Appending byte strings is associative. */
  lemma AppendAssoc(a: seq<byte>, b: seq<byte>, c: seq<byte>)
    ensures (a + b) + c == a + (b + c)
  {
  }

  /** The first of `count` values starts the span: Span(n, count) is `n` more than the span
      of the other `count - 1`. */
  lemma {:induction false} SpanFront(n: nat, count: nat)
    requires count > 0
    ensures Span(n, count) == n + Span(n, count - 1)
  {
  }

  /** Frame `r` is frame `f` with the bytes `c` laid into its payload from `at`: header
      fields and id kept, the message still valid and, when `auto` is on, still sealed if
      `f` was. */
  ghost predicate Lays(f: Frame, r: Frame, at: nat, c: seq<byte>, auto: bool)
  {
    && ValidFrame(r) && r.preamble == f.preamble && r.busId == f.busId && r.messageId == f.messageId
    && r.payload == Laid(f.payload, at, c)
    && (auto && Sealed(f) ==> Sealed(r))
  }

  /** Laying `w` and then `c` right after it lays `w + c`. */
  lemma LaysStep(f: Frame, g: Frame, r: Frame, at: nat, w: seq<byte>, c: seq<byte>, auto: bool)
    requires |w| > 0 && Lays(f, g, at, w, auto) && Lays(g, r, at + |w|, c, auto)
    ensures Lays(f, r, at, w + c, auto)
  {
    if |c| > 0 {
      LaidStep(f.payload, at, w, c);
    } else {
      assert w + c == w;
    }
  }

  /** The `count` values of layout `l` stored from `at` on fit in a message with the id of
      `f`, grown as far as it must be. */
  predicate Room(f: Frame, l: Layout, at: nat, count: nat)
  {
    count == 0 || Fits(Max(|f.payload|, at + Span(Width(l), count)), f.messageId)
  }

  /** The first store of setDataFPValuesById lays the first value's wire bytes, and the
      rest of the values still fit after it. */
  lemma StoreValuesHead(f: Frame, l: Layout, v: RawValue, at: nat, count: nat, auto: bool)
    requires ValidFrame(f) && Shaped(v, l) && count > 0 && Room(f, l, at, count)
    ensures Fits(Max(|f.payload|, at + Width(l)), f.messageId)
    ensures var g := StoreRaw(f, l, v, at, auto);
      Lays(f, g, at, Wire(v, l), auto) && Room(g, l, at + Width(l), count - 1)
  {
    SpanFront(Width(l), count);
    StoreRawFacts(f, l, v, at, auto);
  }

  /** setDataFPValuesById lays exactly the wire image of its values from `at`: the header
      fields are kept, every other payload byte is kept (or zero past the old end), and
      auto-checksum keeps a sealed message sealed. */
  lemma {:induction false} StoreValuesFacts(f: Frame, l: Layout, vs: seq<RawValue>, at: nat, auto: bool)
    requires ValidFrame(f) && (forall k :: 0 <= k < |vs| ==> Shaped(vs[k], l)) && Room(f, l, at, |vs|)
    ensures Lays(f, StoreValues(f, l, vs, at, auto), at, Concat(Wires(vs, l)), auto)
    decreases |vs|
  {
    if |vs| > 0 {
      ghost var g := StoreRaw(f, l, vs[0], at, auto);
      ghost var rest := vs[1..];
      StoreValuesHead(f, l, vs[0], at, |vs|, auto);
      ghost var r := StoreValues(g, l, rest, at + Width(l), auto);
      StoreValuesFacts(g, l, rest, at + Width(l), auto);
      LaysCons(f, g, r, l, vs, at, auto);
    }
  }

  /** Laying the first value's wire bytes and then the rest's lays the whole wire image. */
  lemma LaysCons(f: Frame, g: Frame, r: Frame, l: Layout, vs: seq<RawValue>, at: nat, auto: bool)
    requires (forall k :: 0 <= k < |vs| ==> Shaped(vs[k], l)) && |vs| > 0
    requires Lays(f, g, at, Wire(vs[0], l), auto) && Lays(g, r, at + Width(l), Concat(Wires(vs[1..], l)), auto)
    ensures Lays(f, r, at, Concat(Wires(vs, l)), auto)
  {
    ghost var w := Wire(vs[0], l);
    ghost var c := Concat(Wires(vs[1..], l));
    ConcatWiresFront(vs, l);
    LaysStep(f, g, r, at, w, c, auto);
  }

  /** getDataFPValuesById after setDataFPValuesById with the same identifier and offset
      reads back every value that was stored. */
  lemma StoreValuesThenRead(f: Frame, l: Layout, vs: seq<RawValue>, at: nat, auto: bool)
    requires ValidFrame(f) && (forall k :: 0 <= k < |vs| ==> Shaped(vs[k], l)) && Room(f, l, at, |vs|)
    ensures var r := StoreValues(f, l, vs, at, auto);
      && (|vs| == 0 || at + Span(Width(l), |vs|) <= |r.payload|)
      && ReadValues(r, l, at, |vs|) == vs
  {
    if |vs| > 0 {
      ghost var r := StoreValues(f, l, vs, at, auto);
      ghost var ws := Wires(vs, l);
      StoreValuesFacts(f, l, vs, at, auto);
      ConcatLength(ws, Width(l));
      LaidHolds(f.payload, at, Concat(ws));
      SlicesOfConcat(r.payload, ws, Width(l), at);
      UnwiresWires(vs, l);
    }
  }

  /** The state of the getDataFPValuesById loop after `i` of `count` iterations: `at` is
      the offset of value `i` and `vs` holds the values read so far. */
  ghost predicate ReadSoFar(f: Frame, l: Layout, offset: nat, count: nat, i: nat, at: nat, vs: seq<RawValue>)
  {
    && i <= count && at == offset + Span(Width(l), i)
    && (count == 0 || offset + Span(Width(l), count) <= |f.payload|)
    && (i == 0 || offset + Span(Width(l), i) <= |f.payload|)
    && vs == ReadValues(f, l, offset, i)
  }

  /** One more iteration of the getter reads the value at `at` and moves on by its width. */
  lemma ReadSoFarStep(f: Frame, l: Layout, offset: nat, count: nat, i: nat, at: nat, vs: seq<RawValue>)
    requires ReadSoFar(f, l, offset, count, i, at, vs) && i < count
    ensures at + Width(l) <= |f.payload|
    ensures ReadSoFar(f, l, offset, count, i + 1, at + Width(l), vs + [RawAt(f, l, at)])
  {
    SpanMono(Width(l), i, count);
    ReadValuesStep(f, l, offset, i);
  }

  /** The state of the setDataFPValuesById loop after `i` iterations: `at` is the offset
      of value `i`, and storing the rest of the values from frame `cur` on gives `target`,
      the frame storing all of them gives. */
  ghost predicate StoredSoFar(target: Frame, cur: Frame, l: Layout, vs: seq<RawValue>, offset: nat, i: nat, at: nat, auto: bool)
  {
    && (forall k :: 0 <= k < |vs| ==> Shaped(vs[k], l))
    && i <= |vs| && at == offset + Span(Width(l), i)
    && ValidFrame(cur) && Room(cur, l, at, |vs| - i)
    && StoreValues(cur, l, vs[i..], at, auto) == target
  }

  /** Before the first iteration nothing is stored. */
  lemma StoredSoFarStart(f0: Frame, l: Layout, vs: seq<RawValue>, offset: nat, auto: bool)
    requires ValidFrame(f0) && (forall k :: 0 <= k < |vs| ==> Shaped(vs[k], l)) && Room(f0, l, offset, |vs|)
    ensures StoredSoFar(StoreValues(f0, l, vs, offset, auto), f0, l, vs, offset, 0, offset, auto)
  {
    assert vs[0..] == vs;
  }

  /** Before each iteration value `i` has the shape of the layout and fits. */
  lemma StoredSoFarFits(target: Frame, cur: Frame, l: Layout, vs: seq<RawValue>, offset: nat, i: nat, at: nat, auto: bool)
    requires StoredSoFar(target, cur, l, vs, offset, i, at, auto) && i < |vs|
    ensures Shaped(vs[i], l) && ValidFrame(cur) && Fits(Max(|cur.payload|, at + Width(l)), cur.messageId)
  {
    StoreValuesHead(cur, l, vs[i], at, |vs| - i, auto);
  }

  /** One more iteration: frame `next`, valid and with room for the rest, stores the
      values from `i + 1` on where `cur` stores them from `i` on (StoreValuesRoom and
      StoreValuesStep give both for the store of value `i`), and the loop moves on to
      value `i + 1` at the offset after it. */
  lemma StoredSoFarStep(target: Frame, cur: Frame, next: Frame, l: Layout, vs: seq<RawValue>, offset: nat,
                        i: nat, at: nat, i': nat, at': nat, auto: bool)
    requires StoredSoFar(target, cur, l, vs, offset, i, at, auto) && i < |vs|
    requires i' == i + 1 && at' == at + Width(l)
    requires ValidFrame(next) && Room(next, l, at', |vs| - i')
    requires StoreValues(cur, l, vs[i..], at, auto) == StoreValues(next, l, vs[i'..], at', auto)
    ensures StoredSoFar(target, next, l, vs, offset, i', at', auto)
  {
  }

  /** One iteration of the setDataFPValuesById loop: after value `i` is stored at `at`, the
      loop state holds for value `i + 1` at the offset after it. */
  lemma StoredSoFarNext(target: Frame, cur: Frame, l: Layout, vs: seq<RawValue>, offset: nat, i: nat, at: nat, auto: bool)
    requires StoredSoFar(target, cur, l, vs, offset, i, at, auto) && i < |vs|
    ensures StoredSoFar(target, StoreRaw(cur, l, vs[i], at, auto), l, vs, offset, i + 1, at + Width(l), auto)
  {
    ghost var next, i', at' := StoreRaw(cur, l, vs[i], at, auto), i + 1, at + Width(l);
    StoreValuesRoom(cur, next, l, vs[i], at, at', |vs| - i, |vs| - i', auto);
    StoreValuesStep(cur, next, l, vs, i, at, i', at', auto);
    StoredSoFarStep(target, cur, next, l, vs, offset, i, at, i', at', auto);
  }

  /** Storing the values from `i` on is storing value `i` and then those from `i + 1` on. */
  lemma StoreValuesStep(cur: Frame, next: Frame, l: Layout, vs: seq<RawValue>, i: nat, at: nat, i': nat, at': nat, auto: bool)
    requires (forall k :: 0 <= k < |vs| ==> Shaped(vs[k], l)) && i < |vs|
    requires next == StoreRaw(cur, l, vs[i], at, auto) && i' == i + 1 && at' == at + Width(l)
    ensures StoreValues(cur, l, vs[i..], at, auto) == StoreValues(next, l, vs[i'..], at', auto)
  {
    ghost var rest := vs[i..];
    assert rest[0] == vs[i] && rest[1..] == vs[i'..];
  }

  /** After one store of the loop the frame is valid and the remaining values still fit. */
  lemma StoreValuesRoom(cur: Frame, next: Frame, l: Layout, v: RawValue, at: nat, at': nat, left: nat, left': nat, auto: bool)
    requires ValidFrame(cur) && Shaped(v, l) && left > 0 && Room(cur, l, at, left)
    requires next == StoreRaw(cur, l, v, at, auto) && at' == at + Width(l) && left' == left - 1
    ensures ValidFrame(next) && Room(next, l, at', left')
  {
    StoreValuesHead(cur, l, v, at, left, auto);
  }

  /** After the last iteration the frame is the target. */
  lemma StoredSoFarEnd(target: Frame, cur: Frame, l: Layout, vs: seq<RawValue>, offset: nat, at: nat, auto: bool)
    requires StoredSoFar(target, cur, l, vs, offset, |vs|, at, auto)
    ensures cur == target
  {
    assert vs[|vs|..] == [];
  }

  /** An unsigned integer read with getEndianCorrectData is the big-endian value of its
      wire bytes. */
  lemma ReadFieldValue(f: Frame, offset: nat, size: nat)
    requires size in {1, 2, 4, 8} && offset + size <= |f.payload|
    ensures LeValue(ReadField(f, offset, size)) == BeValue(f.payload[offset..offset + size])
    ensures LeValue(ReadField(f, offset, size)) < Pow256(size)
  {
    var w := f.payload[offset..offset + size];
    SwapEndianReverses(w);
    LeValueOfReversal(w, SwapEndian(w));
    LeValueBound(ReadField(f, offset, size));
  }

  /** setDataShort, setDataLong and setDataLongLong followed by the matching getter at the
      same offset return the integer that was set. */
  lemma SetThenGetInteger(f: Frame, offset: nat, value: nat, size: nat, auto: bool)
    requires ValidFrame(f) && size in {1, 2, 4, 8} && value < Pow256(size)
    requires Fits(Max(|f.payload|, offset + size), f.messageId)
    ensures var r := Store(f, offset, SwapEndian(LeBytes(value, size)), auto);
      && offset + size <= |r.payload| && LeValue(ReadField(r, offset, size)) == value
  {
    StoreThenRead(f, offset, LeBytes(value, size), auto);
    LeValueOfLeBytes(value, size);
  }
}
