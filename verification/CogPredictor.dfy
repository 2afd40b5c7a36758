/** TIFF predictors: the standard encoders, and the in-place undo the reader performs. */
module CogPredictor {
  import opened Arith
  import opened Bytes

  /** Wrapping sum of two bytes. */
  function AddByte(a: byte, b: byte): byte {
    var sum: int := (a as int) + b;
    if sum < 256 then sum else sum - 256
  }

  /** Wrapping difference of two bytes. */
  function SubByte(a: byte, b: byte): byte {
    var difference: int := (a as int) - b;
    if difference < 0 then difference + 256 else difference
  }

  /** Wrapping sum of two 32-bit integers. */
  function AddI32(a: i32, b: i32): i32 {
    WrapI32((a as int) + b)
  }

  /** Wrapping difference of two 32-bit integers. */
  function SubI32(a: i32, b: i32): i32 {
    WrapI32((a as int) - b)
  }

  /** Two's-complement wrap-around of a sum or difference of two 32-bit integers. */
  function WrapI32(x: int): i32
    requires -0x1_0000_0000 <= x < 0x1_0000_0000
  {
    if x >= 0x8000_0000 then x - 0x1_0000_0000 else if x < -0x8000_0000 then x + 0x1_0000_0000 else x
  }

  lemma ByteDifference(x: byte, y: byte)
    ensures AddByte(SubByte(x, y), y) == x
    ensures SubByte(AddByte(x, y), y) == x
  {
  }

  lemma I32Difference(x: i32, y: i32)
    ensures AddI32(y, SubI32(x, y)) == x
    ensures SubI32(AddI32(y, x), y) == x
  {
  }

  // ---- Encoders of the standards ---------------------------------------------

  /** TIFF 6.0 section 14, 8-bit samples: each byte minus its left neighbour, modulo 256. */
  function EncodeBytes(row: seq<byte>): (d: seq<byte>)
    ensures |d| == |row|
  {
    seq(|row|, i requires 0 <= i < |row| => if i == 0 then row[0] else SubByte(row[i], row[i - 1]))
  }

  /** TIFF 6.0 section 14, 32-bit integer samples: differences modulo 2^32. */
  function EncodeI32(row: seq<i32>): (d: seq<i32>)
    ensures |d| == |row|
  {
    seq(|row|, i requires 0 <= i < |row| => if i == 0 then row[0] else SubI32(row[i], row[i - 1]))
  }

  /** Technical Note 3: all first bytes, then all second bytes, ..., most significant first. */
  function BytePlanes(samples: seq<u32>): (d: seq<byte>)
    ensures |d| == 4 * |samples|
  {
    PowValues();
    seq(4 * |samples|, j requires 0 <= j < 4 * |samples| => PlaneByte(samples, j))
  }

  function PlaneByte(samples: seq<u32>, j: nat): byte
    requires j < 4 * |samples|
  {
    PowValues();
    RowMajorSplit(j, |samples|, 4);
    BeBytes(samples[j % |samples|], 4)[j / |samples|]
  }

  /** Technical Note 3: byte planes, then byte differences along the whole row. */
  function EncodeFloats(samples: seq<u32>): (d: seq<byte>)
    ensures |d| == 4 * |samples|
  {
    EncodeBytes(BytePlanes(samples))
  }

  // ---- What undoing computes ---------------------------------------------------

  /** Running sums modulo 256. */
  function UndoBytes(d: seq<byte>): (row: seq<byte>)
    ensures |row| == |d|
  {
    if d == [] then []
    else
      var init := UndoBytes(d[..|d| - 1]);
      init + [if init == [] then d[0] else AddByte(d[|d| - 1], init[|init| - 1])]
  }

  /** Running sums of 32-bit integers with wrap-around. */
  function UndoI32(d: seq<i32>): (row: seq<i32>)
    ensures |row| == |d|
  {
    if d == [] then []
    else
      var init := UndoI32(d[..|d| - 1]);
      init + [AddI32(if init == [] then 0 else init[|init| - 1], d[|d| - 1])]
  }

  lemma {:induction false} UndoEncodeBytes(row: seq<byte>)
    ensures UndoBytes(EncodeBytes(row)) == row
  {
    if row == [] {
    } else {
      var n := |row| - 1;
      var d := EncodeBytes(row);
      assert d[..n] == EncodeBytes(row[..n]);
      UndoEncodeBytes(row[..n]);
      if n > 0 {
        ByteDifference(row[n], row[n - 1]);
        assert UndoBytes(d[..n])[n - 1] == row[n - 1];
      }
    }
  }

  lemma EncodeUndoBytes(d: seq<byte>)
    ensures EncodeBytes(UndoBytes(d)) == d
  {
    var row := UndoBytes(d);
    forall k | 0 <= k < |d|
      ensures EncodeBytes(row)[k] == d[k]
    {
      UndoBytesAt(d, k);
      if k > 0 {
        ByteDifference(d[k], row[k - 1]);
      }
    }
  }

  lemma {:induction false} UndoEncodeI32(row: seq<i32>)
    ensures UndoI32(EncodeI32(row)) == row
  {
    if row == [] {
    } else {
      var n := |row| - 1;
      var d := EncodeI32(row);
      assert d[..n] == EncodeI32(row[..n]);
      UndoEncodeI32(row[..n]);
      if n > 0 {
        I32Difference(row[n], row[n - 1]);
        assert UndoI32(d[..n])[n - 1] == row[n - 1];
      }
    }
  }

  lemma EncodeUndoI32(d: seq<i32>)
    ensures EncodeI32(UndoI32(d)) == d
  {
    var row := UndoI32(d);
    forall k | 0 <= k < |d|
      ensures EncodeI32(row)[k] == d[k]
    {
      UndoI32At(d, k);
      if k > 0 {
        I32Difference(d[k], row[k - 1]);
      }
    }
  }

  // ---- Samples of a decoded row ------------------------------------------------

  /** Little-endian 32-bit words of a row. */
  function Words(row: seq<byte>): (s: seq<u32>)
    ensures |s| == |row| / 4
  {
    PowValues();
    seq(|row| / 4, c requires 0 <= c < |row| / 4 => LeValue(row[4 * c..4 * c + 4]))
  }

  function WordBytes(s: seq<u32>): (row: seq<byte>)
    ensures |row| == 4 * |s|
  {
    PowValues();
    seq(4 * |s|, j requires 0 <= j < 4 * |s| => LeBytes(s[j / 4], 4)[j % 4])
  }

  lemma WordsRoundTrip(s: seq<u32>)
    ensures Words(WordBytes(s)) == s
  {
    PowValues();
    forall c | 0 <= c < |s|
      ensures Words(WordBytes(s))[c] == s[c]
    {
      hide LeBytes, LeValue, Pow256;
      WordBytesAt(s, c);
      LeRoundTrip(s[c], 4);
    }
  }

  function Signed(s: seq<u32>): (r: seq<i32>)
    ensures |r| == |s|
  {
    seq(|s|, i requires 0 <= i < |s| => AsI32(s[i]))
  }

  function Unsigned(s: seq<i32>): (r: seq<u32>)
    ensures |r| == |s|
  {
    seq(|s|, i requires 0 <= i < |s| => AsU32(s[i]))
  }

  lemma SignedWords(s: seq<i32>)
    ensures Signed(Words(WordBytes(Unsigned(s)))) == s
  {
    WordsRoundTrip(Unsigned(s));
  }

  /** Big-endian 32-bit word of column `c`, one byte from each plane. */
  function PlaneWord(row: seq<byte>, planeWidth: nat, c: nat): u32
    requires |row| == 4 * planeWidth && c < planeWidth
  {
    PowValues();
    BeValue([row[c], row[planeWidth + c], row[2 * planeWidth + c], row[3 * planeWidth + c]])
  }

  function PlaneWords(row: seq<byte>, planeWidth: nat): (s: seq<u32>)
    requires |row| == 4 * planeWidth
    ensures |s| == planeWidth
  {
    seq(planeWidth, c requires 0 <= c < planeWidth => PlaneWord(row, planeWidth, c))
  }

  /** Undoing the floating-point predictor gives back every sample of the padded row. */
  lemma FloatPredictorRoundTrip(samples: seq<u32>)
    ensures PlaneWords(UndoBytes(EncodeFloats(samples)), |samples|) == samples
  {
    UndoEncodeBytes(BytePlanes(samples));
    var row, n := BytePlanes(samples), |samples|;
    forall c | 0 <= c < n
      ensures PlaneWord(row, n, c) == samples[c]
    {
      PlaneWordRoundTrip(samples, c);
    }
  }

  lemma PlaneByteAt(samples: seq<u32>, k: nat, c: nat)
    requires k < 4 && c < |samples| && samples[c] < Pow256(4)
    ensures RowMajor(k, |samples|, c) < 4 * |samples|
    ensures BytePlanes(samples)[RowMajor(k, |samples|, c)] == BeBytes(samples[c], 4)[k]
  {
    RowMajorBound(k, c, |samples|, 4);
    DivModOf(k, |samples|, c);
  }

  lemma PlaneWordIs(row: seq<byte>, n: nat, c: nat, be: seq<byte>)
    requires |row| == 4 * n && c < n && |be| == 4
    requires row[c] == be[0] && row[n + c] == be[1] && row[2 * n + c] == be[2] && row[3 * n + c] == be[3]
    ensures PlaneWord(row, n, c) == BeValue(be)
  {
    assert [row[c], row[n + c], row[2 * n + c], row[3 * n + c]] == be;
  }

  lemma PlaneWordRoundTrip(samples: seq<u32>, c: nat)
    requires c < |samples|
    ensures PlaneWord(BytePlanes(samples), |samples|, c) == samples[c]
  {
    hide *;
    var be := PlaneColumn(samples, c);
    PlaneWordIs(BytePlanes(samples), |samples|, c, be);
  }

  lemma FourRows(n: nat, c: nat)
    ensures RowMajor(0, n, c) == c && RowMajor(1, n, c) == n + c
    ensures RowMajor(2, n, c) == 2 * n + c && RowMajor(3, n, c) == 3 * n + c
  {
  }

  /** The four bytes of column `c` of the planes. */
  lemma PlaneColumn(samples: seq<u32>, c: nat) returns (be: seq<byte>)
    requires c < |samples|
    ensures |be| == 4 && BeValue(be) == samples[c]
    ensures var row, n := BytePlanes(samples), |samples|;
            row[c] == be[0] && row[n + c] == be[1] && row[2 * n + c] == be[2] && row[3 * n + c] == be[3]
  {
    hide BytePlanes, PlaneByte, LeBytes, LeValue, BeValue, BeBytes, Pow256, Reverse, RowMajor;
    PowValues();
    be := BeBytes(samples[c], 4);
    BeRoundTrip(samples[c], 4);
    FourRows(|samples|, c);
    PlaneByteAt(samples, 0, c);
    PlaneByteAt(samples, 1, c);
    PlaneByteAt(samples, 2, c);
    PlaneByteAt(samples, 3, c);
  }

  // ---- In-place undo -------------------------------------------------------------

  /** Row `y` of a buffer of `width`-byte rows. */
  function Row(buf: seq<byte>, width: nat, y: nat): (r: seq<byte>)
    requires y * width + width <= |buf|
    ensures |r| == width
  {
    buf[y * width..][..width]
  }

  /** Both buffers hold the same number of whole rows, and rows below `done` of `after` are transformed. */
  ghost predicate RowsUndone(before: seq<byte>, after: seq<byte>, width: nat, rows: nat, done: nat,
                             undo: seq<byte> -> seq<byte>)
  {
    && |before| == |after| == rows * width
    && forall y: nat :: y < rows ==>
         && y * width + width <= rows * width
         && Row(after, width, y) == if y < done then undo(Row(before, width, y)) else Row(before, width, y)
  }

  lemma RowFits(width: nat, rows: nat, y: nat)
    requires y < rows
    ensures y * width + width <= rows * width
  {
    MulMono(y + 1, rows, width);
  }

  lemma RowsUndoneStart(before: seq<byte>, width: nat, rows: nat, undo: seq<byte> -> seq<byte>)
    requires |before| == rows * width
    ensures RowsUndone(before, before, width, rows, 0, undo)
  {
    forall y: nat | y < rows
      ensures y * width + width <= rows * width
    {
      RowFits(width, rows, y);
    }
  }

  /** `after` is `before` with `row` written at `start`. */
  ghost predicate Replaced(before: seq<byte>, after: seq<byte>, start: nat, row: seq<byte>) {
    && |after| == |before| && start + |row| <= |before|
    && forall k :: 0 <= k < |before| ==>
                     after[k] == if start <= k < start + |row| then row[k - start] else before[k]
  }

  /** Rewriting one row leaves every other row alone. */
  lemma OtherRow(mid: seq<byte>, after: seq<byte>, width: nat, rows: nat, done: nat, row: seq<byte>, y: nat)
    requires |mid| == rows * width && done < rows && y < rows && y != done && |row| == width
    requires Replaced(mid, after, done * width, row)
    ensures y * width + width <= rows * width
    ensures Row(after, width, y) == Row(mid, width, y)
  {
    RowFits(width, rows, y);
    if y < done {
      RowFits(width, done, y);
    } else {
      RowFits(width, y, done);
    }
    assert Row(after, width, y) == Row(mid, width, y);
  }

  /** Transforming row `done` in place extends the transformed rows. */
  lemma RowsUndoneStep(before: seq<byte>, mid: seq<byte>, after: seq<byte>, width: nat, rows: nat, done: nat,
                       undo: seq<byte> -> seq<byte>)
    requires done < rows && RowsUndone(before, mid, width, rows, done, undo)
    requires done * width + width <= |mid| && |undo(Row(mid, width, done))| == width
    requires Replaced(mid, after, done * width, undo(Row(mid, width, done)))
    ensures RowsUndone(before, after, width, rows, done + 1, undo)
  {
    assert Row(after, width, done) == undo(Row(mid, width, done));
    forall y: nat | y < rows
      ensures y * width + width <= rows * width
      ensures Row(after, width, y) == if y < done + 1 then undo(Row(before, width, y)) else Row(before, width, y)
    {
      hide Row, Replaced;
      if y != done {
        OtherRow(mid, after, width, rows, done, undo(Row(mid, width, done)), y);
      }
    }
  }

  /** Each undone byte is the difference plus the undone byte before it. */
  lemma {:induction false} UndoBytesAt(d: seq<byte>, k: nat)
    requires k < |d|
    ensures UndoBytes(d)[k] == if k == 0 then d[0] else AddByte(d[k], UndoBytes(d)[k - 1])
  {
    if k < |d| - 1 {
      UndoBytesAt(d[..|d| - 1], k);
    }
  }

  lemma {:induction false} UndoI32At(d: seq<i32>, k: nat)
    requires k < |d|
    ensures UndoI32(d)[k] == AddI32(if k == 0 then 0 else UndoI32(d)[k - 1], d[k])
  {
    if k < |d| - 1 {
      UndoI32At(d[..|d| - 1], k);
    }
  }

  /** Undo byte differencing of one row, in place. */
  method UndoByteRow(buf: array<byte>, start: nat, len: nat)
    requires start + len <= buf.Length
    modifies buf
    ensures Replaced(old(buf[..]), buf[..], start, UndoBytes(old(buf[..])[start..][..len]))
  {
    ghost var before := buf[..];
    ghost var d := before[start..][..len];
    ghost var row := UndoBytes(d);
    hide UndoBytes, AddByte;
    if len > 0 {
      UndoBytesAt(d, 0);
    }
    var index := 1;
    while index < len
      invariant 1 <= index && (len > 0 ==> index <= len)
      invariant forall k :: 0 <= k < buf.Length ==>
                  buf[k] == if start <= k < start + index && k < start + len then row[k - start] else before[k]
    {
      UndoBytesAt(d, index);
      buf[start + index] := AddByte(buf[start + index], buf[start + index - 1]);
      index := index + 1;
    }
  }

  /** Undo byte differencing of every row, in place. */
  method UndoByteRows(buf: array<byte>, width: nat, rows: nat)
    requires buf.Length == rows * width
    modifies buf
    ensures RowsUndone(old(buf[..]), buf[..], width, rows, rows, UndoBytes)
  {
    ghost var before := buf[..];
    RowsUndoneStart(before, width, rows, UndoBytes);
    var y := 0;
    while y < rows
      invariant 0 <= y <= rows
      invariant RowsUndone(before, buf[..], width, rows, y, UndoBytes)
    {
      RowFits(width, rows, y);
      ghost var mid := buf[..];
      UndoByteRow(buf, y * width, width);
      RowsUndoneStep(before, mid, buf[..], width, rows, y, UndoBytes);
      y := y + 1;
    }
  }

  /** Undo 32-bit integer differencing of a row's bytes. */
  function UndoWordRow(row: seq<byte>): (r: seq<byte>)
    ensures |r| == 4 * (|row| / 4)
  {
    WordBytes(Unsigned(UndoI32(Signed(Words(row)))))
  }

  /** Read the little-endian word at `p`. */
  method GetWord(buf: array<byte>, p: nat) returns (v: u32)
    requires p + 4 <= buf.Length
    ensures v == LeValue(buf[..][p..][..4])
  {
    PowValues();
    var chunk := [buf[p], buf[p + 1], buf[p + 2], buf[p + 3]];
    assert chunk == buf[..][p..][..4];
    v := LeValue(chunk);
  }

  /** Write the little-endian word at `p`. */
  method PutWord(buf: array<byte>, p: nat, v: u32)
    requires p + 4 <= buf.Length && v < Pow256(4)
    modifies buf
    ensures Replaced(old(buf[..]), buf[..], p, LeBytes(v, 4))
  {
    var bytes := LeBytes(v, 4);
    buf[p], buf[p + 1], buf[p + 2], buf[p + 3] := bytes[0], bytes[1], bytes[2], bytes[3];
  }

  lemma ReplacedExtend(before: seq<byte>, mid: seq<byte>, after: seq<byte>, start: nat, target: seq<byte>, n: nat, bytes: seq<byte>)
    requires n + |bytes| <= |target| && start + |target| <= |before|
    requires Replaced(before, mid, start, target[..n]) && Replaced(mid, after, start + n, bytes)
    requires target[n..][..|bytes|] == bytes
    ensures Replaced(before, after, start, target[..n + |bytes|])
  {
  }

  /** `values` are the running sums of the words at `start`, and `target` their bytes. */
  ghost predicate RunningSums(before: seq<byte>, start: nat, words: nat, values: seq<i32>, target: seq<byte>) {
    && start + 4 * words <= |before| && |values| == words && |target| == 4 * words
    && forall c: nat :: c < words ==> RunningSum(before, start, values, target, c)
  }

  ghost predicate RunningSum(before: seq<byte>, start: nat, values: seq<i32>, target: seq<byte>, c: nat)
    requires start + 4 * |values| <= |before| && c < |values| && |target| == 4 * |values|
  {
    PowValues();
    && values[c] == AddI32(if c == 0 then 0 else values[c - 1], AsI32(LeValue(before[start + 4 * c..][..4])))
    && target[4 * c..][..4] == LeBytes(AsU32(values[c]), 4)
  }

  lemma WordRowSums(before: seq<byte>, start: nat, words: nat)
    requires start + 4 * words <= |before|
    ensures var row := before[start..][..4 * words];
            RunningSums(before, start, words, UndoI32(Signed(Words(row))), UndoWordRow(row))
  {
    PowValues();
    var row := before[start..][..4 * words];
    var d := Signed(Words(row));
    forall c: nat | c < words
      ensures RunningSum(before, start, UndoI32(d), UndoWordRow(row), c)
    {
      assert before[start + 4 * c..][..4] == row[4 * c..4 * c + 4];
      UndoI32At(d, c);
      WordBytesAt(Unsigned(UndoI32(d)), c);
    }
  }

  lemma UntouchedWord(before: seq<byte>, after: seq<byte>, start: nat, done: seq<byte>, p: nat)
    requires Replaced(before, after, start, done) && start + |done| <= p && p + 4 <= |before|
    ensures after[p..][..4] == before[p..][..4]
  {
    forall t | 0 <= t < 4
      ensures after[p..][..4][t] == before[p..][..4][t]
    {
      assert after[p + t] == before[p + t];
    }
  }

  /** The running-sum loop of the integer predictor over one row. */
  method SumWords(buf: array<byte>, start: nat, words: nat, ghost values: seq<i32>, ghost target: seq<byte>)
    requires RunningSums(buf[..], start, words, values, target)
    modifies buf
    ensures Replaced(old(buf[..]), buf[..], start, target)
  {
    PowValues();
    ghost var before := buf[..];
    var previous: i32 := 0;
    var c := 0;
    while c < words
      invariant 0 <= c <= words
      invariant previous == if c == 0 then 0 else values[c - 1]
      invariant Replaced(before, buf[..], start, target[..4 * c])
    {
      ghost var mid := buf[..];
      assert RunningSum(before, start, values, target, c);
      var word := GetWord(buf, start + 4 * c);
      UntouchedWord(before, mid, start, target[..4 * c], start + 4 * c);
      var value := AddI32(previous, AsI32(word));
      PutWord(buf, start + 4 * c, AsU32(value));
      ReplacedExtend(before, mid, buf[..], start, target, 4 * c, LeBytes(AsU32(value), 4));
      previous := value;
      c := c + 1;
    }
    assert target[..4 * words] == target;
  }

  /** Undo 32-bit integer differencing of one row, in place. */
  method UndoI32Row(buf: array<byte>, start: nat, words: nat)
    requires start + 4 * words <= buf.Length
    modifies buf
    ensures Replaced(old(buf[..]), buf[..], start, UndoWordRow(old(buf[..])[start..][..4 * words]))
  {
    ghost var row := buf[..][start..][..4 * words];
    WordRowSums(buf[..], start, words);
    SumWords(buf, start, words, UndoI32(Signed(Words(row))), UndoWordRow(row));
  }

  lemma WordBytesAt(s: seq<u32>, c: nat)
    requires c < |s| && s[c] < Pow256(4)
    ensures WordBytes(s)[4 * c..4 * c + 4] == LeBytes(s[c], 4)
  {
  }

  /** Undo 32-bit integer differencing of every row, in place. */
  method UndoI32Rows(buf: array<byte>, width: nat, rows: nat)
    requires buf.Length == rows * width && width % 4 == 0
    modifies buf
    ensures RowsUndone(old(buf[..]), buf[..], width, rows, rows, UndoWordRow)
  {
    ghost var before := buf[..];
    RowsUndoneStart(before, width, rows, UndoWordRow);
    var y := 0;
    while y < rows
      invariant 0 <= y <= rows
      invariant RowsUndone(before, buf[..], width, rows, y, UndoWordRow)
    {
      RowFits(width, rows, y);
      ghost var mid := buf[..];
      UndoI32Row(buf, y * width, width / 4);
      RowsUndoneStep(before, mid, buf[..], width, rows, y, UndoWordRow);
      y := y + 1;
    }
  }

  /** Undoing an integer-differenced row gives back every sample. */
  lemma IntegerPredictorRoundTrip(samples: seq<i32>)
    ensures Signed(Words(UndoWordRow(WordBytes(Unsigned(EncodeI32(samples)))))) == samples
  {
    SignedWords(EncodeI32(samples));
    UndoEncodeI32(samples);
    SignedWords(samples);
  }
}
