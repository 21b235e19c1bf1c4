/**
 The equalized display component. Before the RGB data is expanded, the
 decoder's buffer is passed through a histogram equalization that works in
 place and, as written, walks the buffer in steps of four: channel `c` is
 made of the positions `j` with `j % 4 == c`, whatever pixel they belong to,
 and the positions with `j % 4 == 3` are neither counted nor changed. The
 cumulative counts are divided by the buffer length.

 The buffer is the decoder's 8-bit data: every sample is a byte, and every
 value written back is stored as by ToUint8.
 */
module Equalization {
  import opened ByteStores
  import opened Frames
  import opened Expansion

  /** The largest sample value, also the scale of the CDF. */
  const MaxPixelValue: nat := 255

  /* ---------- Histograms ---------- */

  /** Number of positions `j < m` of channel `c` (that is, `j % 4 == c`)
      that hold `v`. */
  function Count(data: seq<int>, c: nat, v: int, m: nat): nat
    requires m <= |data|
  {
    if m == 0 then 0
    else Count(data, c, v, m - 1) + (if (m - 1) % 4 == c && data[m - 1] == v then 1 else 0)
  }

  /** Entry `v` of the histogram of channel `c` over the whole buffer. */
  function Histogram(data: seq<int>, c: nat, v: int): nat {
    Count(data, c, v, |data|)
  }

  /** Adds one to entry `v` of histogram `c`. */
  function Record(h: seq<seq<nat>>, c: nat, v: nat): seq<seq<nat>>
    requires c < |h| && v < |h[c]|
  {
    h[c := h[c][v := h[c][v] + 1]]
  }

  /** The three histograms hold the counts of the first `m` positions. */
  ghost predicate Tallied(data: seq<int>, h: seq<seq<nat>>, m: nat)
    requires m <= |data|
  {
    && |h| == 3
    && (forall c | 0 <= c < 3 :: |h[c]| == MaxPixelValue + 1)
    && (forall c, v | 0 <= c < 3 && 0 <= v <= MaxPixelValue :: h[c][v] == Count(data, c, v, m))
  }

  /** How far a pass that starts at `i` has got in a buffer of length `len`. */
  function Seen(i: nat, len: nat): nat {
    if i <= len then i else len
  }

  /** Counting the sample at `m = 4p + k`, `k < 3`, into histogram `k`
      extends the tally by one position. */
  lemma RecordStep(data: seq<int>, h: seq<seq<nat>>, m: nat, p: nat, k: nat)
    requires AllBytes(data) && m < |data| && k < 3 && m == 4 * p + k
    requires Tallied(data, h, m)
    ensures Tallied(data, Record(h, k, data[m]), m + 1)
  {
    SlotOf(p, k);
  }

  /** The sample at `m = 4p + 3` belongs to no histogram. */
  lemma AlphaStep(data: seq<int>, h: seq<seq<nat>>, m: nat, p: nat)
    requires m < |data| && m == 4 * p + 3
    requires Tallied(data, h, m)
    ensures Tallied(data, h, m + 1)
  {
    SlotOf(p, 3);
  }

  /* ---------- Cumulative counts and the CDF ---------- */

  /** Sum of the entries `0 .. v - 1` of histogram `c`: the running total
      of the CDF loop before it reaches `v`. */
  function Cumulative(data: seq<int>, c: nat, v: nat): nat {
    if v == 0 then 0 else Cumulative(data, c, v - 1) + Histogram(data, c, v - 1)
  }

  /** Entry `v` of the CDF of channel `c`: the running total up to and
      including `v`, divided by the buffer length and scaled by 255. */
  function Cdf(data: seq<int>, c: nat, v: nat): real
    requires |data| > 0
  {
    (Cumulative(data, c, v + 1) as real / |data| as real) * MaxPixelValue as real
  }

  /** Number of positions `j < m` of channel `c` holding a value in
      `0 .. v - 1`. */
  function Below(data: seq<int>, c: nat, v: int, m: nat): nat
    requires m <= |data|
  {
    if m == 0 then 0
    else Below(data, c, v, m - 1) + (if (m - 1) % 4 == c && 0 <= data[m - 1] < v then 1 else 0)
  }

  /** Number of positions `j < m` with `j % 4 == c`. */
  function Members(c: nat, m: nat): nat {
    if m == 0 then 0 else Members(c, m - 1) + (if (m - 1) % 4 == c then 1 else 0)
  }

  lemma {:induction false} BelowStep(data: seq<int>, c: nat, v: nat, m: nat)
    requires m <= |data|
    ensures Below(data, c, v + 1, m) == Below(data, c, v, m) + Count(data, c, v, m)
  {
    if m > 0 {
      BelowStep(data, c, v, m - 1);
    }
  }

  lemma {:induction false} BelowNone(data: seq<int>, c: nat, m: nat)
    requires m <= |data|
    ensures Below(data, c, 0, m) == 0
  {
    if m > 0 {
      BelowNone(data, c, m - 1);
    }
  }

  /** The running total before `v` counts exactly the samples of the channel
      that lie below `v`. */
  lemma {:induction false} CumulativeIsBelow(data: seq<int>, c: nat, v: nat)
    ensures Cumulative(data, c, v) == Below(data, c, v, |data|)
  {
    if v == 0 {
      BelowNone(data, c, |data|);
    } else {
      CumulativeIsBelow(data, c, v - 1);
      BelowStep(data, c, v - 1, |data|);
    }
  }

  lemma {:induction false} BelowAtMostMembers(data: seq<int>, c: nat, v: int, m: nat)
    requires m <= |data|
    ensures Below(data, c, v, m) <= Members(c, m) <= m
  {
    if m > 0 {
      BelowAtMostMembers(data, c, v, m - 1);
    }
  }

  lemma {:induction false} BelowAllBytes(data: seq<int>, c: nat, m: nat)
    requires m <= |data| && AllBytes(data)
    ensures Below(data, c, MaxPixelValue + 1, m) == Members(c, m)
  {
    if m > 0 {
      BelowAllBytes(data, c, m - 1);
    }
  }

  /** Of the first `m` positions, `(m + 3 - c) / 4` lie in channel `c`. */
  lemma {:induction false} MembersCount(c: nat, m: nat)
    requires c < 4
    ensures Members(c, m) == (m + 3 - c) / 4
  {
    if m > 0 {
      MembersCount(c, m - 1);
      var q := (m - 1) / 4;
      assert m - 1 == 4 * q + (m - 1) % 4;
    }
  }

  /** The entries of histogram `c` add up to the number of passes `i` (every
      fourth position) with `i + c` inside the buffer. */
  lemma HistogramTotal(data: seq<int>, c: nat)
    requires AllBytes(data) && c < 3
    ensures Cumulative(data, c, MaxPixelValue + 1) == (|data| + 3 - c) / 4
  {
    CumulativeIsBelow(data, c, MaxPixelValue + 1);
    BelowAllBytes(data, c, |data|);
    MembersCount(c, |data|);
  }

  /** The running total never decreases as `v` grows. */
  lemma {:induction false} CumulativeMonotone(data: seq<int>, c: nat, v: nat, v': nat)
    requires v <= v'
    ensures Cumulative(data, c, v) <= Cumulative(data, c, v')
    decreases v' - v
  {
    if v < v' {
      CumulativeMonotone(data, c, v, v' - 1);
    }
  }

  /** The running total never exceeds the buffer length. */
  lemma CumulativeAtMostLength(data: seq<int>, c: nat, v: nat)
    ensures Cumulative(data, c, v) <= |data|
  {
    CumulativeIsBelow(data, c, v);
    BelowAtMostMembers(data, c, v, |data|);
  }

  lemma ScaleMonotone(x: nat, y: nat, len: nat)
    requires x <= y && len > 0
    ensures (x as real / len as real) * 255.0 <= (y as real / len as real) * 255.0
  {
    assert x as real / len as real <= y as real / len as real;
  }

  /** Each channel's CDF is non-decreasing in the sample value. */
  lemma CdfMonotone(data: seq<int>, c: nat, v: nat, v': nat)
    requires |data| > 0 && v <= v'
    ensures Cdf(data, c, v) <= Cdf(data, c, v')
  {
    CumulativeMonotone(data, c, v + 1, v' + 1);
    ScaleMonotone(Cumulative(data, c, v + 1), Cumulative(data, c, v' + 1), |data|);
  }

  /** Every CDF entry lies in `[0, 255]`. */
  lemma CdfInRange(data: seq<int>, c: nat, v: nat)
    requires |data| > 0
    ensures 0.0 <= Cdf(data, c, v) <= 255.0
  {
    var t := Cumulative(data, c, v + 1);
    CumulativeAtMostLength(data, c, v + 1);
    ScaleMonotone(t, |data|, |data|);
    assert (|data| as real / |data| as real) == 1.0;
  }

  /** The top CDF entry: the channel's share of the buffer, scaled by 255.
      With three samples per pixel that share is about a quarter, so the
      equalized values stay well below full scale. */
  lemma CdfAtTop(data: seq<int>, c: nat)
    requires AllBytes(data) && |data| > 0 && c < 3
    ensures Cdf(data, c, MaxPixelValue) == (((|data| + 3 - c) / 4) as real / |data| as real) * 255.0
  {
    HistogramTotal(data, c);
  }

  /** The smallest value present in a channel: no smaller value of that
      channel precedes it, so its CDF entry is its own count's share of the
      buffer, scaled by 255. */
  lemma CdfAtSmallest(data: seq<int>, c: nat, v: nat)
    requires |data| > 0 && Below(data, c, v, |data|) == 0
    ensures Cdf(data, c, v) == (Histogram(data, c, v) as real / |data| as real) * 255.0
  {
    CumulativeIsBelow(data, c, v);
  }

  /* ---------- The remapped buffer ---------- */

  /** Position `j` after the equalization: positions of the fourth kind
      keep their value, the others are their channel's CDF entry for the
      value they held, stored as by ToUint8. */
  function EqualizedSample(data: seq<int>, j: nat): int
    requires j < |data| && IsByte(data[j])
  {
    if j % 4 == 3 then data[j] else ToUint8(Cdf(data, j % 4, data[j]))
  }

  /** The whole buffer after the equalization. */
  function EqualizedBuffer(data: seq<int>): (r: seq<int>)
    requires AllBytes(data)
    ensures |r| == |data|
  {
    seq(|data|, j requires 0 <= j < |data| => EqualizedSample(data, j))
  }

  /** Positions with `j % 4 == 3` are left as they were, and every value
      is a byte. */
  lemma EqualizeKeepsFourthSlots(data: seq<int>)
    requires AllBytes(data)
    ensures AllBytes(EqualizedBuffer(data))
    ensures forall j | 0 <= j < |data| && j % 4 == 3 :: EqualizedBuffer(data)[j] == data[j]
  {
  }

  /** Within one channel, the remap is a function of the original value and
      keeps the order of values. */
  lemma EqualizedPreservesChannelOrder(data: seq<int>, j: nat, j': nat)
    requires AllBytes(data) && j < |data| && j' < |data| && j % 4 == j' % 4
    ensures data[j] <= data[j'] ==> EqualizedBuffer(data)[j] <= EqualizedBuffer(data)[j']
    ensures data[j] == data[j'] ==> EqualizedBuffer(data)[j] == EqualizedBuffer(data)[j']
  {
    if j % 4 < 3 && data[j] <= data[j'] {
      var c := j % 4;
      CdfMonotone(data, c, data[j], data[j']);
      CdfInRange(data, c, data[j]);
      CdfInRange(data, c, data[j']);
      ToUint8Monotone(Cdf(data, c, data[j]), Cdf(data, c, data[j']));
    }
  }

  /** No equalized sample exceeds its channel's top CDF entry. */
  lemma EqualizedAtMostTop(data: seq<int>, j: nat)
    requires AllBytes(data) && j < |data| && j % 4 < 3
    ensures EqualizedBuffer(data)[j] as real <= Cdf(data, j % 4, MaxPixelValue)
  {
    var c := j % 4;
    CdfMonotone(data, c, data[j], MaxPixelValue);
    CdfInRange(data, c, data[j]);
  }

  /* ---------- Equalizing twice ---------- */

  /** The value a sample `v` of channel `c` is remapped to. */
  function Level(data: seq<int>, c: nat, v: nat): int
    requires |data| > 0
  {
    ToUint8(Cdf(data, c, v))
  }

  /** The remap of one channel never decreases. */
  lemma LevelMonotone(data: seq<int>, c: nat, v: nat, v': nat)
    requires |data| > 0 && v <= v'
    ensures Level(data, c, v) <= Level(data, c, v')
  {
    CdfMonotone(data, c, v, v');
    CdfInRange(data, c, v);
    CdfInRange(data, c, v');
    ToUint8Monotone(Cdf(data, c, v), Cdf(data, c, v'));
  }

  /** The largest byte that channel `c` remaps to the same value as `v`. */
  function Top(data: seq<int>, c: nat, v: nat): (t: nat)
    requires |data| > 0 && v <= MaxPixelValue
    ensures v <= t <= MaxPixelValue
    ensures Level(data, c, t) == Level(data, c, v)
    ensures t < MaxPixelValue ==> Level(data, c, t + 1) != Level(data, c, v)
    decreases MaxPixelValue - v
  {
    if v < MaxPixelValue && Level(data, c, v + 1) == Level(data, c, v) then Top(data, c, v + 1) else v
  }

  /** A byte `w` of channel `c` is remapped to at most the level of `v`
      exactly when `w` is at most the top of that level. */
  lemma AtMostLevel(data: seq<int>, c: nat, v: nat, w: nat)
    requires |data| > 0 && v <= MaxPixelValue && w <= MaxPixelValue
    ensures Level(data, c, w) <= Level(data, c, v) <==> w <= Top(data, c, v)
  {
    var t := Top(data, c, v);
    if w <= t {
      LevelMonotone(data, c, w, t);
    } else {
      LevelMonotone(data, c, t, t + 1);
      LevelMonotone(data, c, t + 1, w);
    }
  }

  /** The samples of channel `c` that the equalized buffer holds at or below
      the level of `v` are exactly the samples of the original buffer at or
      below the top of that level. */
  lemma {:induction false} BelowAgree(data: seq<int>, e: seq<int>, c: nat, v: nat, m: nat)
    requires AllBytes(data) && |data| > 0 && c < 3 && v <= MaxPixelValue && m <= |data|
    requires e == EqualizedBuffer(data)
    ensures Below(e, c, Level(data, c, v) + 1, m) == Below(data, c, Top(data, c, v) + 1, m)
  {
    if m > 0 {
      BelowAgree(data, e, c, v, m - 1);
      if (m - 1) % 4 == c {
        AtMostLevel(data, c, v, data[m - 1]);
      }
    }
  }

  /** Equalizing an equalized buffer changes nothing: every remapped level
      has the same CDF entry in the equalized buffer as the top original
      value that reached it. */
  lemma EqualizeIdempotent(data: seq<int>)
    requires AllBytes(data)
    ensures AllBytes(EqualizedBuffer(data))
    ensures EqualizedBuffer(EqualizedBuffer(data)) == EqualizedBuffer(data)
  {
    var e := EqualizedBuffer(data);
    EqualizeKeepsFourthSlots(data);
    forall j | 0 <= j < |e|
      ensures EqualizedSample(e, j) == e[j]
    {
      if j % 4 < 3 {
        var c, v := j % 4, data[j];
        BelowAgree(data, e, c, v, |data|);
        CumulativeIsBelow(e, c, Level(data, c, v) + 1);
        CumulativeIsBelow(data, c, Top(data, c, v) + 1);
      }
    }
  }

  /** The buffer, remapped below `m` and untouched from `m` on. */
  ghost predicate Remapped(data: seq<int>, out: seq<int>, m: nat) {
    && AllBytes(data) && |out| == |data| && m <= |data|
    && (forall j | 0 <= j < m :: out[j] == EqualizedSample(data, j))
    && (forall j | m <= j < |data| :: out[j] == data[j])
  }

  /** The three CDF tables as the CDF loop leaves them. */
  ghost predicate CdfTables(data: seq<int>, cdfs: seq<seq<real>>)
    requires |data| > 0
  {
    && |cdfs| == 3
    && (forall c | 0 <= c < 3 :: |cdfs[c]| == MaxPixelValue + 1)
    && (forall c, v | 0 <= c < 3 && 0 <= v <= MaxPixelValue :: cdfs[c][v] == Cdf(data, c, v))
  }

  /** Remapping position `m = 4p + k`, `k < 3`, reads its original byte and
      extends the remapped prefix by one. */
  lemma RemapStep(data: seq<int>, cdfs: seq<seq<real>>, out: seq<int>, m: nat, p: nat, k: nat)
    requires |data| > 0 && CdfTables(data, cdfs)
    requires Remapped(data, out, m) && m < |data| && k < 3 && m == 4 * p + k
    ensures IsByte(out[m])
    ensures Remapped(data, out[m := ToUint8(cdfs[k][out[m]])], m + 1)
  {
    SlotOf(p, k);
  }

  /** Position `m = 4p + 3` is skipped and already holds its final value. */
  lemma RemapSkip(data: seq<int>, out: seq<int>, m: nat, p: nat)
    requires Remapped(data, out, m) && m < |data| && m == 4 * p + 3
    ensures Remapped(data, out, m + 1)
  {
    SlotOf(p, 3);
  }

  /** The equalization: histograms, then CDFs, then the in-place remap, each
      pass walking the buffer in steps of four. */
  method HistogramEqualization(data: seq<int>) returns (out: seq<int>)
    requires AllBytes(data)
    ensures out == EqualizedBuffer(data)
  {
    if |data| == 0 {
      // The CDF entries would be 0/0, but no pass reads them: the buffer
      // comes back unchanged.
      return data;
    }
    var histograms := CountChannels(data);
    var cdfs := BuildCdfs(data, histograms);
    out := Remap(data, cdfs);
  }

  /** Step 1: the histograms of the three channels; sample `i + k` of each
      pass goes into histogram `k`, for the `k < 3` inside the buffer. */
  method CountChannels(data: seq<int>) returns (histograms: seq<seq<nat>>)
    requires AllBytes(data)
    ensures Tallied(data, histograms, |data|)
  {
    histograms := seq(3, _ => seq(MaxPixelValue + 1, _ => 0));
    var i := 0;
    ghost var p: nat := 0;
    while i < |data|
      invariant i == 4 * p
      invariant Tallied(data, histograms, Seen(i, |data|))
    {
      RecordStep(data, histograms, i, p, 0);
      histograms := Record(histograms, 0, data[i]);
      if i + 1 < |data| {
        RecordStep(data, histograms, i + 1, p, 1);
        histograms := Record(histograms, 1, data[i + 1]);
      }
      if i + 2 < |data| {
        RecordStep(data, histograms, i + 2, p, 2);
        histograms := Record(histograms, 2, data[i + 2]);
      }
      if i + 3 < |data| {
        AlphaStep(data, histograms, i + 3, p);
      }
      i, p := i + 4, p + 1;
    }
  }

  /** Step 2: the cumulative distribution of each channel. A zero entry
      leaves the running total as it is. */
  method BuildCdfs(data: seq<int>, histograms: seq<seq<nat>>) returns (cdfs: seq<seq<real>>)
    requires |data| > 0 && Tallied(data, histograms, |data|)
    ensures CdfTables(data, cdfs)
  {
    cdfs := [[], [], []];
    var channel := 0;
    while channel < 3
      invariant 0 <= channel <= 3 && |cdfs| == 3
      invariant forall c | 0 <= c < channel :: |cdfs[c]| == MaxPixelValue + 1
      invariant forall c, v | 0 <= c < channel && 0 <= v <= MaxPixelValue :: cdfs[c][v] == Cdf(data, c, v)
    {
      var cumulative := 0;
      var row: seq<real> := [];
      var v := 0;
      while v <= MaxPixelValue
        invariant 0 <= v <= MaxPixelValue + 1 && |row| == v
        invariant cumulative == Cumulative(data, channel, v)
        invariant forall u | 0 <= u < v :: row[u] == Cdf(data, channel, u)
      {
        if histograms[channel][v] != 0 {
          cumulative := cumulative + histograms[channel][v];
        }
        row := row + [(cumulative as real / |data| as real) * MaxPixelValue as real];
        v := v + 1;
      }
      cdfs := cdfs[channel := row];
      channel := channel + 1;
    }
  }

  /** Step 3: replace each sample by its channel's CDF entry, in place. */
  method Remap(data: seq<int>, cdfs: seq<seq<real>>) returns (out: seq<int>)
    requires AllBytes(data) && |data| > 0 && CdfTables(data, cdfs)
    ensures out == EqualizedBuffer(data)
  {
    out := data;
    var i := 0;
    ghost var p: nat := 0;
    while i < |out|
      invariant i == 4 * p
      invariant Remapped(data, out, Seen(i, |data|))
    {
      RemapStep(data, cdfs, out, i, p, 0);
      out := out[i := ToUint8(cdfs[0][out[i]])];
      if i + 1 < |out| {
        RemapStep(data, cdfs, out, i + 1, p, 1);
        out := out[i + 1 := ToUint8(cdfs[1][out[i + 1]])];
      }
      if i + 2 < |out| {
        RemapStep(data, cdfs, out, i + 2, p, 2);
        out := out[i + 2 := ToUint8(cdfs[2][out[i + 2]])];
      }
      if i + 3 < |out| {
        RemapSkip(data, out, i + 3, p);
      }
      i, p := i + 4, p + 1;
    }
  }

  /** The expanded equalized image shows the equalized buffer exactly:
      dropping its alpha samples gives it back. */
  lemma EqualizedDisplayRoundTrip(data: seq<int>, n: nat)
    requires AllBytes(data) && |data| == 3 * n
    ensures DropAlpha(ExpandedImage(EqualizedBuffer(data), n)) == EqualizedBuffer(data)
  {
    EqualizeKeepsFourthSlots(data);
    ExpandRoundTrip(EqualizedBuffer(data), n);
  }

  /** The equalized display: validate the first page, equalize its data in
      place, then expand it. `pagesAfter` is the decoder's page list after
      the call, with the first page's data overwritten. */
  method RenderEqualized(pages: seq<Frame>) returns (r: Outcome<Raster>, pagesAfter: seq<Frame>)
    requires |pages| > 0 ==> AllBytes(pages[0].data)
    ensures r.Ok? <==> Renderable(pages)
    ensures |pages| == 0 ==> r == Err(NoPagesFound)
    ensures |pages| > 0 && !Renderable(pages) ==> r == Err(InvalidPixelDataLength)
    ensures !r.Ok? ==> pagesAfter == pages
    ensures r.Ok? ==> pagesAfter == pages[0 := pages[0].(data := EqualizedBuffer(pages[0].data))]
    ensures r.Ok? ==> r.value == Raster(pages[0].width, pages[0].height,
                                        ExpandedImage(EqualizedBuffer(pages[0].data), PixelCount(pages[0])))
    ensures r.Ok? ==> |r.value.rgba| == 4 * PixelCount(pages[0])
  {
    match FirstFrame(pages)
    case Err(e) =>
      r, pagesAfter := Err(e), pages;
    case Ok(f) =>
      var data := HistogramEqualization(f.data);
      pagesAfter := pages[0 := f.(data := data)];
      var rgba := ExpandToRgba(data, PixelCount(f));
      r := Ok(Raster(f.width, f.height, rgba));
  }
}
