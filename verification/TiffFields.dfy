/** Reading back packed fields in both byte orders and both TIFF flavours. */
module TiffFields {
  import opened Arith
  import opened Bytes
  import opened Results
  import opened TiffRead

  // ---- Words ------------------------------------------------------------------------------

  function PackWord(lay: Layout, v: nat, width: nat): (bs: seq<byte>)
    requires v < Pow256(width)
    ensures |bs| == width
  {
    if lay.little then LeBytes(v, width) else BeBytes(v, width)
  }

  lemma WordRead(lay: Layout, data: seq<byte>, at: nat, width: nat, v: nat)
    requires v < Pow256(width) && at + width <= |data| && data[at..at + width] == PackWord(lay, v, width)
    ensures lay.Unsigned(data, at, width) == v
  {
    LeRoundTrip(v, width);
    BeRoundTrip(v, width);
  }

  predicate AllBelow(values: seq<nat>, limit: nat) {
    forall i :: 0 <= i < |values| ==> values[i] < limit
  }

  /** Words of one width, one after another. */
  function PackWords(lay: Layout, values: seq<nat>, width: nat): (bs: seq<byte>)
    requires AllBelow(values, Pow256(width))
    ensures |bs| == |values| * width
  {
    if values == [] then []
    else
      assert AllBelow(values[1..], Pow256(width));
      assert |values| * width == width + (|values| - 1) * width;
      PackWord(lay, values[0], width) + PackWords(lay, values[1..], width)
  }

  lemma {:induction false} WordSlice(lay: Layout, values: seq<nat>, width: nat, i: nat)
    requires AllBelow(values, Pow256(width)) && i < |values|
    ensures i * width + width <= |PackWords(lay, values, width)|
    ensures PackWords(lay, values, width)[i * width..i * width + width] == PackWord(lay, values[i], width)
    decreases i
  {
    hide PackWord;
    NumberInside(i, |values|, width);
    assert AllBelow(values[1..], Pow256(width));
    var head, tail := PackWord(lay, values[0], width), PackWords(lay, values[1..], width);
    var whole := PackWords(lay, values, width);
    assert whole == head + tail;
    if i == 0 {
      assert whole[0..width] == head;
    } else {
      WordSlice(lay, values[1..], width, i - 1);
      assert i * width == width + (i - 1) * width;
      TailSlice(head, tail, (i - 1) * width, width);
    }
  }

  lemma TailSlice(head: seq<byte>, tail: seq<byte>, at: nat, width: nat)
    requires at + width <= |tail|
    ensures (head + tail)[|head| + at..|head| + at + width] == tail[at..at + width]
  {
  }

  /** Word `i` of packed words is read back. */
  lemma WordsRead(lay: Layout, values: seq<nat>, width: nat, i: nat)
    requires AllBelow(values, Pow256(width)) && i < |values|
    ensures i * width + width <= |PackWords(lay, values, width)|
    ensures lay.Unsigned(PackWords(lay, values, width), i * width, width) == values[i]
  {
    hide PackWord, PackWords;
    WordSlice(lay, values, width, i);
    WordRead(lay, PackWords(lay, values, width), i * width, width, values[i]);
  }

  // ---- Entries ----------------------------------------------------------------------------

  /** An entry as the two TIFF flavours lay it out: tag, type, count and value field. */
  function PackEntry(lay: Layout, tag: u16, kind: u16, count: nat, field: seq<byte>): (row: seq<byte>)
    requires |field| == lay.InlineWidth() && count < Pow256(lay.InlineWidth())
    ensures |row| == lay.EntryWidth()
  {
    PowValues();
    PackWord(lay, tag, 2) + PackWord(lay, kind, 2) + PackWord(lay, count, lay.InlineWidth()) + field
  }

  /** A packed entry is read back, wherever it stands in a directory, in all four layouts. */
  lemma EntryRead(data: seq<byte>, pre: Preamble, k: nat, tag: u16, kind: u16, count: nat, field: seq<byte>)
    requires Inside(data, pre) && k < pre.count && |field| == pre.lay.InlineWidth() && count < Pow256(pre.lay.InlineWidth())
    requires EntryOffset(pre, k) + pre.lay.EntryWidth() <= |data|
    requires data[EntryOffset(pre, k)..EntryOffset(pre, k) + pre.lay.EntryWidth()] == PackEntry(pre.lay, tag, kind, count, field)
    ensures TagAt(data, pre, k) == tag
    ensures EntryAt(data, pre, k) == Entry(kind, count, EntryOffset(pre, k))
    ensures var at := EntryOffset(pre, k) + pre.lay.EntryWidth() - pre.lay.InlineWidth();
            data[at..at + pre.lay.InlineWidth()] == field
  {
    hide PackWord, EntryOffset;
    PowValues();
    var lay, at := pre.lay, EntryOffset(pre, k);
    var w, inline := lay.EntryWidth(), lay.InlineWidth();
    var row := PackEntry(lay, tag, kind, count, field);
    RowParts(lay, tag, kind, count, field);
    SubSlice(data, at, w, 0, 2);
    SubSlice(data, at, w, 2, 2);
    SubSlice(data, at, w, 4, inline);
    SubSlice(data, at, w, w - inline, inline);
    WordRead(lay, data, at, 2, tag);
    WordRead(lay, data, at + 2, 2, kind);
    WordRead(lay, data, at + 4, inline, count);
  }

  lemma RowParts(lay: Layout, tag: u16, kind: u16, count: nat, field: seq<byte>)
    requires |field| == lay.InlineWidth() && count < Pow256(lay.InlineWidth())
    ensures tag < Pow256(2) && kind < Pow256(2)
    ensures var row, w, inline := PackEntry(lay, tag, kind, count, field), lay.EntryWidth(), lay.InlineWidth();
            && row[0..2] == PackWord(lay, tag, 2) && row[2..4] == PackWord(lay, kind, 2)
            && row[4..4 + inline] == PackWord(lay, count, inline) && row[w - inline..w] == field
  {
    hide PackWord;
    PowValues();
  }

  // ---- Integer values ---------------------------------------------------------------------

  predicate SignedKind(kind: nat) {
    kind == 8 || kind == 17
  }

  /** The integer field types. */
  predicate IntegerKind(kind: nat) {
    ValueWidth(kind) > 0 && kind != 11 && kind != 12
  }

  predicate InRange(kind: nat, n: int) {
    if SignedKind(kind) then -2 * n <= Pow256(ValueWidth(kind)) && 2 * n < Pow256(ValueWidth(kind)) else 0 <= n < Pow256(ValueWidth(kind))
  }

  /** Two's complement. */
  function Code(kind: nat, n: int): (v: nat)
    requires IntegerKind(kind) && InRange(kind, n)
    ensures v < Pow256(ValueWidth(kind))
  {
    if n >= 0 then n else n + Pow256(ValueWidth(kind))
  }

  predicate AllInRange(kind: nat, ns: seq<int>) {
    forall i :: 0 <= i < |ns| ==> InRange(kind, ns[i])
  }

  function Codes(kind: nat, ns: seq<int>): (values: seq<nat>)
    requires IntegerKind(kind) && AllInRange(kind, ns)
    ensures |values| == |ns| && AllBelow(values, Pow256(ValueWidth(kind)))
  {
    seq(|ns|, i requires 0 <= i < |ns| => Code(kind, ns[i]))
  }

  function PackIntegers(lay: Layout, kind: nat, ns: seq<int>): (bs: seq<byte>)
    requires IntegerKind(kind) && AllInRange(kind, ns)
    ensures |bs| == |ns| * ValueWidth(kind)
  {
    PackWords(lay, Codes(kind, ns), ValueWidth(kind))
  }

  lemma CodeRead(dbl: Doubles, lay: Layout, kind: nat, raw: seq<byte>, at: nat, n: int)
    requires IntegerKind(kind) && InRange(kind, n)
    requires at + ValueWidth(kind) <= |raw| && lay.Unsigned(raw, at, ValueWidth(kind)) == Code(kind, n)
    ensures NumberAt(dbl, lay, kind, raw, at) == Whole(n)
  {
  }

  /** The bytes of a field lie in its entry when they fit, else where the entry points. */
  predicate Placed(data: seq<byte>, lay: Layout, e: Entry, bytes: seq<byte>, pointer: nat)
    requires e.offset + lay.EntryWidth() <= |data|
  {
    var at := e.offset + lay.EntryWidth() - lay.InlineWidth();
    if |bytes| <= lay.InlineWidth() then data[at..at + |bytes|] == bytes
    else
      && pointer < Pow256(lay.InlineWidth()) && data[at..at + lay.InlineWidth()] == PackWord(lay, pointer, lay.InlineWidth())
      && pointer + |bytes| <= |data| && data[pointer..pointer + |bytes|] == bytes
  }

  lemma RawRead(data: seq<byte>, lay: Layout, e: Entry, bytes: seq<byte>, pointer: nat)
    requires e.offset + lay.EntryWidth() <= |data| && Placed(data, lay, e, bytes, pointer)
    requires |bytes| == ValueWidth(e.kind) * e.count
    ensures RawField(data, lay, e) == bytes
  {
    hide PackWord;
    if |bytes| > lay.InlineWidth() {
      WordRead(lay, data, e.offset + lay.EntryWidth() - lay.InlineWidth(), lay.InlineWidth(), pointer);
    }
  }

  /** Every list of integers packed as any integer field type, inline or out of line, in either byte order and
      either flavour, is read back. */
  lemma IntegersRead(dbl: Doubles, data: seq<byte>, lay: Layout, e: Entry, ns: seq<int>, pointer: nat)
    requires e.offset + lay.EntryWidth() <= |data|
    requires IntegerKind(e.kind) && AllInRange(e.kind, ns) && |ns| == e.count <= VALUE_LIMIT
    requires Placed(data, lay, e, PackIntegers(lay, e.kind, ns), pointer)
    ensures Values(dbl, data, lay, e) == Ok(seq(|ns|, i requires 0 <= i < |ns| => Whole(ns[i])))
  {
    hide PackWords, InRange, Placed, NumberAt;
    var raw := PackIntegers(lay, e.kind, ns);
    RawRead(data, lay, e, raw, pointer);
    forall i | 0 <= i < |ns|
      ensures i * ValueWidth(e.kind) + ValueWidth(e.kind) <= |raw| && NumberAt(dbl, lay, e.kind, raw, i * ValueWidth(e.kind)) == Whole(ns[i])
    {
      WordsRead(lay, Codes(e.kind, ns), ValueWidth(e.kind), i);
      CodeRead(dbl, lay, e.kind, raw, i * ValueWidth(e.kind), ns[i]);
    }
    assert Numbers(dbl, lay, e.kind, raw, |ns|) == seq(|ns|, i requires 0 <= i < |ns| => Whole(ns[i]));
  }

  // ---- Doubles and samples ----------------------------------------------------------------

  function PackDoubles(lay: Layout, values: seq<u64>): (bs: seq<byte>)
    ensures |bs| == |values| * 8
  {
    PowValues();
    PackWords(lay, values, 8)
  }

  function AsDoubles(values: seq<u64>): (ns: seq<Number>)
    ensures |ns| == |values| && forall i :: 0 <= i < |ns| ==> ns[i] == Double(values[i])
  {
    seq(|values|, i requires 0 <= i < |values| => Double(values[i]))
  }

  /** Every list of doubles, inline or out of line, is read back bit for bit. */
  lemma DoublesRead(dbl: Doubles, data: seq<byte>, lay: Layout, e: Entry, values: seq<u64>, pointer: nat)
    requires e.offset + lay.EntryWidth() <= |data|
    requires e.kind == 12 && |values| == e.count <= VALUE_LIMIT
    requires Placed(data, lay, e, PackDoubles(lay, values), pointer)
    ensures Values(dbl, data, lay, e) == Ok(AsDoubles(values))
  {
    hide PackWords, Placed;
    PowValues();
    var raw := PackDoubles(lay, values);
    RawRead(data, lay, e, raw, pointer);
    forall i | 0 <= i < |values|
      ensures i * 8 + 8 <= |raw| && NumberAt(dbl, lay, 12, raw, i * 8) == Double(values[i])
    {
      WordsRead(lay, values, 8, i);
    }
    assert Numbers(dbl, lay, 12, raw, |values|) == AsDoubles(values);
  }

  function PackSamples(lay: Layout, samples: Samples): (raw: seq<byte>)
    ensures |raw| == samples.Count() * (if samples.U8? then 1 else 4)
  {
    match samples
    case U8(bytes) => bytes
    case F32(bits) => PowValues(); PackWords(lay, bits, 4)
  }

  /** Unpacking packed samples gives them back. */
  lemma SamplesRead(kind: Kind, lay: Layout, samples: Samples)
    requires samples.U8? <==> kind == FlowDir
    ensures UnpackSamples(kind, lay, PackSamples(lay, samples), samples.Count()) == samples
  {
    hide PackWords;
    PowValues();
    if samples.F32? {
      var raw := PackSamples(lay, samples);
      forall i | 0 <= i < |samples.bits|
        ensures 4 * i + 4 <= |raw| && SingleAt(lay, raw, i) == samples.bits[i]
      {
        WordsRead(lay, samples.bits, 4, i);
      }
    }
  }
}
