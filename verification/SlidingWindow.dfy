/** The sliding-window bit-rate limiter: a circular buffer of the last frame sizes with a limit that
    adapts between a floor and the window's hard maximum. */
module SlidingWindow {
  import opened Numeric

  // ----- the window as a history of frame sizes -----

  /** `history` starts with one padding entry per slot; the newest frame is last. */
  datatype Window = Window(
    maxWinBits: nat, limit: int, avg: nat, size: nat, lookAhead: bool,
    lastOrder: nat, history: seq<nat>)
  {
    ghost predicate Valid() {
      && 1 <= size <= |history|
      && maxWinBits % size == 0
      && avg <= maxWinBits / size
      && LowestLimit() <= limit <= maxWinBits
    }

    /** The amount by which the limit moves at a time. */
    function Step(): int
      requires size > 0
    {
      (maxWinBits / size - avg) / if lookAhead then 4 else 2
    }

    function LowestLimit(): int
      requires size > 0
    {
      maxWinBits - Step() * size
    }

    /** Bits of the last `n` frames, each counted as at least a third of the average if `checkSkip`. */
    function LastFrameBits(n: nat, checkSkip: bool): nat
      requires size <= |history|
    {
      SumLast(history, MinInt(n, size), if checkSkip then avg / 3 else 0)
    }

    function MaxFrameSize(panic: bool, sceneStart: bool, recode: nat): int
      requires 1 <= size <= |history|
    {
      var winBits := LastFrameBits(size - 1, !panic);
      var base := if panic then maxWinBits else if sceneStart then (maxWinBits + limit) / 2 else limit;
      var lim := MinInt(base + recode * Step() / 2, maxWinBits);
      if winBits >= limit then MaxInt(maxWinBits - winBits, 1) else lim - winBits
    }

    function Record(bits: nat, order: nat, panic: bool, sceneStart: bool, recode: nat): Window
      requires 1 <= size <= |history|
    {
      if order == lastOrder then
        this.(history := history[|history| - 1 := bits])
      else
        var w := this.(history := history + [bits], lastOrder := order);
        w.(limit := w.AdaptedLimit(bits, panic, sceneStart, recode))
    }

    function AdaptedLimit(bits: nat, panic: bool, sceneStart: bool, recode: nat): int
      requires 1 <= size <= |history|
    {
      if panic || sceneStart then Clamp((LastFrameBits(size, false) + maxWinBits) / 2, LowestLimit(), maxWinBits)
      else if recode > 0 then Clamp(LastFrameBits(size, false) + Step() / 2, limit, maxWinBits)
      else if limit > LowestLimit() + Step() && limit - Step() > LastFrameBits(size - 1, false) + bits
      then limit - Step()
      else limit
    }
  }

  function Create(windowSize: nat, maxBitPerFrame: nat, avgBitPerFrame: nat, lookAhead: bool): Window
    requires windowSize > 0
  {
    var w := Window(maxBitPerFrame * windowSize, 0, MinInt(avgBitPerFrame, maxBitPerFrame), windowSize, lookAhead,
                    0xFFFF_FFFF, Padding(windowSize, maxBitPerFrame));
    w.(limit := w.LowestLimit())
  }

  /** Initial entries that keep the first frames from using the whole window. */
  function Padding(windowSize: nat, maxBitPerFrame: nat): seq<nat> {
    seq(windowSize, _ => maxBitPerFrame / 3)
  }

  /** Sum of the last `n` entries, each raised to `least`, newest first. */
  function SumLast(s: seq<nat>, n: nat, least: nat): nat
    requires n <= |s|
  {
    if n == 0 then 0 else SumLast(s, n - 1, least) + MaxInt(s[|s| - n], least)
  }

  function Sum(s: seq<nat>): nat {
    if s == [] then 0 else s[0] + Sum(s[1..])
  }

  lemma {:induction false} SumLastIsSum(s: seq<nat>, n: nat)
    requires n <= |s|
    ensures SumLast(s, n, 0) == Sum(s[|s| - n..])
  {
    if n > 0 {
      SumLastIsSum(s, n - 1);
      assert s[|s| - n..][1..] == s[|s| - (n - 1)..];
    }
  }

  lemma {:induction false} SumLastAppend(s: seq<nat>, x: nat, n: nat, least: nat)
    requires n <= |s|
    ensures SumLast(s + [x], n + 1, least) == SumLast(s, n, least) + MaxInt(x, least)
  {
    if n > 0 {
      SumLastAppend(s, x, n - 1, least);
      assert (s + [x])[|s| + 1 - (n + 1)] == s[|s| - n];
    }
  }

  lemma {:induction false} SumLastMonotone(s: seq<nat>, n: nat, least: nat)
    requires n <= |s|
    ensures SumLast(s, n, 0) <= SumLast(s, n, least)
  {
    if n > 0 {
      SumLastMonotone(s, n - 1, least);
    }
  }

  lemma {:induction false} SumLastGrows(s: seq<nat>, m: nat, n: nat)
    requires m <= n <= |s|
    ensures SumLast(s, m, 0) <= SumLast(s, n, 0)
    decreases n
  {
    if m < n {
      SumLastGrows(s, m, n - 1);
    }
  }

  /** Each entry counts as it is, or as `least` if it is smaller. */
  lemma {:induction false} SumLastRaised(s: seq<nat>, n: nat, least: nat)
    requires n <= |s|
    ensures SumLast(s, n, least) == Sum(Raised(s[|s| - n..], least))
  {
    if n > 0 {
      SumLastRaised(s, n - 1, least);
      var last := s[|s| - n..];
      assert last[1..] == s[|s| - (n - 1)..];
      assert Raised(last, least)[1..] == Raised(last[1..], least);
    }
  }

  function Raised(s: seq<nat>, least: nat): seq<nat> {
    seq(|s|, i requires 0 <= i < |s| => if s[i] < least then least else s[i])
  }

  // ----- the limit -----

  /** The step is half of what a frame may take beyond the average, a quarter with look-ahead, and the limit starts
      one step per frame below the window's maximum. */
  lemma StepMeaning(w: Window)
    requires w.size > 0
    ensures var parts := if w.lookAhead then 4 else 2;
            parts * w.Step() <= w.maxWinBits / w.size - w.avg < parts * w.Step() + parts
    ensures w.maxWinBits - w.LowestLimit() == w.Step() * w.size
  {
  }

  /** A new window may hold the maximum of each of its frames, starts at its lowest limit, and counts a third of that
      maximum for every frame before the first. */
  lemma {:induction false} CreateMeaning(windowSize: nat, maxBitPerFrame: nat, avgBitPerFrame: nat, lookAhead: bool)
    requires windowSize > 0
    ensures var w := Create(windowSize, maxBitPerFrame, avgBitPerFrame, lookAhead);
            && w.maxWinBits / windowSize == maxBitPerFrame && w.maxWinBits % windowSize == 0
            && w.avg <= avgBitPerFrame && w.avg <= maxBitPerFrame && w.avg in {avgBitPerFrame, maxBitPerFrame}
            && w.limit == w.LowestLimit() && w.size == windowSize == |w.history| && w.lookAhead == lookAhead
            && w.lastOrder == 0xFFFF_FFFF
            && SumLast(w.history, windowSize, 0) == windowSize * (maxBitPerFrame / 3)
  {
    var w := Create(windowSize, maxBitPerFrame, avgBitPerFrame, lookAhead);
    DivModUnique(maxBitPerFrame * windowSize, windowSize, maxBitPerFrame, 0);
    SumLastOfPadding(w.history, windowSize, maxBitPerFrame / 3);
  }

  lemma StepBounds(w: Window)
    requires w.size > 0 && w.maxWinBits % w.size == 0 && w.avg <= w.maxWinBits / w.size
    ensures 0 <= w.Step()
    ensures 0 <= w.LowestLimit() <= w.maxWinBits
  {
    var perFrame := w.maxWinBits / w.size;
    assert perFrame * w.size == w.maxWinBits;
    assert w.Step() * w.size <= perFrame * w.size;
    assert 0 <= w.Step() * w.size;
  }

  lemma CreateIsValid(windowSize: nat, maxBitPerFrame: nat, avgBitPerFrame: nat, lookAhead: bool)
    requires windowSize > 0
    ensures Create(windowSize, maxBitPerFrame, avgBitPerFrame, lookAhead).Valid()
  {
    var w := Create(windowSize, maxBitPerFrame, avgBitPerFrame, lookAhead);
    DivModUnique(w.maxWinBits, windowSize, maxBitPerFrame, 0);
    StepBounds(w);
  }

  /** The limit never leaves its range, so neither the decrement nor the subtraction that sets the floor
      wraps around as an unsigned word. */
  lemma RecordKeepsLimitInRange(w: Window, bits: nat, order: nat, panic: bool, sceneStart: bool, recode: nat)
    requires w.Valid()
    ensures w.Record(bits, order, panic, sceneStart, recode).Valid()
    ensures w.Record(bits, order, panic, sceneStart, recode).LowestLimit() == w.LowestLimit() >= 0
  {
    StepBounds(w);
  }

  /** The maximum is always a usable size: no subtraction in it wraps around, and a bit is always allowed. */
  lemma MaxFrameSizeIsPositive(w: Window, panic: bool, sceneStart: bool, recode: nat)
    requires w.Valid()
    ensures 1 <= w.MaxFrameSize(panic, sceneStart, recode)
  {
    StepBounds(w);
    assert 0 <= recode * w.Step();
  }

  /** The window's sum is the sum of the last frames recorded. */
  lemma LastFrameBitsIsSum(w: Window, n: nat)
    requires w.size <= |w.history|
    ensures w.LastFrameBits(n, false) == Sum(w.history[|w.history| - MinInt(n, w.size)..])
  {
    SumLastIsSum(w.history, MinInt(n, w.size));
  }

  /** A frame of at most the maximum fills the window to its hard maximum at most, unless the window was
      already full: then the maximum is the fallback of a single bit. */
  lemma MaxFrameSizeMeaning(w: Window, panic: bool, sceneStart: bool, recode: nat)
    requires w.Valid()
    ensures var m := w.MaxFrameSize(panic, sceneStart, recode);
            m == 1 || SumLast(w.history, w.size - 1, 0) + m <= w.maxWinBits
  {
    SumLastMonotone(w.history, w.size - 1, if !panic then w.avg / 3 else 0);
  }

  /** In panic the maximum is exact: a frame of more than one bit is allowed if and only if the window including
      it stays within the hard maximum. */
  lemma PanicMaxIsExact(w: Window, sceneStart: bool, recode: nat, bits: nat)
    requires w.Valid() && bits > 1
    ensures bits <= w.MaxFrameSize(true, sceneStart, recode)
            <==> SumLast(w.history, w.size - 1, 0) + bits <= w.maxWinBits
  {
    StepBounds(w);
    assert 0 <= recode * w.Step();
  }

  /** Otherwise it is exact, too. While the window without the oldest frame, where every frame counts as at least a
      third of the average, is below the limit, the first try of an ordinary frame fills it to the limit, a scene start
      half way from there to the hard maximum, one retry adds half a step and two a whole one, up to the hard maximum.
      Beyond the limit what is left to the hard maximum is allowed, at least a bit. */
  lemma MaxIsExact(w: Window, sceneStart: bool, recode: nat)
    requires w.Valid()
    ensures var win := SumLast(w.history, w.size - 1, w.avg / 3);
            var first, next := w.MaxFrameSize(false, sceneStart, 0), w.MaxFrameSize(false, sceneStart, recode);
            && (win >= w.limit ==> next == MaxInt(w.maxWinBits - win, 1))
            && (win < w.limit ==>
                  && (!sceneStart ==> win + first == w.limit)
                  && (sceneStart ==> 2 * (win + first) <= w.limit + w.maxWinBits < 2 * (win + first) + 2)
                  && w.MaxFrameSize(false, sceneStart, 1) == MinInt(first + w.Step() / 2, w.maxWinBits - win)
                  && w.MaxFrameSize(false, sceneStart, recode + 2) == MinInt(next + w.Step(), w.maxWinBits - win))
  {
    hide SumLast, Window.Step;
    StepBounds(w);
    TwoMore(recode, w.Step());
  }

  lemma TwoMore(recode: nat, step: int)
    ensures (recode + 2) * step / 2 == recode * step / 2 + step
  {
    assert (recode + 2) * step == recode * step + 2 * step;
  }

  /** Panic, a scene start and further retries only ever relax the maximum. */
  lemma RelaxingNeverShrinks(w: Window, sceneStart: bool, recode: nat, more: nat)
    requires w.Valid() && recode <= more
    ensures w.MaxFrameSize(false, false, recode) <= w.MaxFrameSize(false, true, recode)
    ensures w.MaxFrameSize(false, sceneStart, recode) <= w.MaxFrameSize(false, sceneStart, more)
    ensures w.MaxFrameSize(false, sceneStart, recode) <= w.MaxFrameSize(true, sceneStart, recode)
  {
    StepBounds(w);
    SumLastMonotone(w.history, w.size - 1, w.avg / 3);
    Allowance(recode, more, w.Step());
    hide SumLast, Window.Step;
  }

  lemma Allowance(recode: nat, more: nat, step: int)
    requires recode <= more && 0 <= step
    ensures 0 <= recode * step / 2 <= more * step / 2
  {
    DistributeInt(more - recode, recode, step);
    assert 0 <= (more - recode) * step && 0 <= recode * step;
  }

  /** How the limit adapts to a new frame. After a panic or at a scene start it is half way from what the window now
      holds to the hard maximum, but not below its lowest value. A retried frame raises it, if need be, to half a step
      above what the window holds, and never lowers it. A frame that needed no retry lowers it by a step exactly while
      that stays above the lowest value and the window stays below it with the frame counted twice. */
  lemma LimitAdaptation(w: Window, bits: nat, order: nat, panic: bool, sceneStart: bool, recode: nat)
    requires w.Valid() && order != w.lastOrder
    ensures var w' := w.Record(bits, order, panic, sceneStart, recode);
            var holds, lower := SumLast(w'.history, w.size, 0), w.limit - w.Step();
            && (panic || sceneStart ==>
                  && (holds + w.maxWinBits < 2 * w.LowestLimit() ==> w'.limit == w.LowestLimit())
                  && (2 * w.LowestLimit() <= holds + w.maxWinBits < 2 * w.maxWinBits ==>
                        2 * w'.limit <= holds + w.maxWinBits < 2 * w'.limit + 2)
                  && (holds >= w.maxWinBits ==> w'.limit == w.maxWinBits))
            && (!panic && !sceneStart && recode > 0 ==>
                  && (w'.limit > w.limit <==> holds + w.Step() / 2 > w.limit && w.limit < w.maxWinBits)
                  && (w'.limit != w.limit ==> w'.limit == MinInt(holds + w.Step() / 2, w.maxWinBits))
                  && w.limit <= w'.limit)
            && (!panic && !sceneStart && recode == 0 ==>
                  w'.limit == if w.LowestLimit() < lower && SumLast(w'.history, w.size - 1, 0) + bits < lower
                              then lower else w.limit)
  {
    hide SumLast;
    StepBounds(w);
  }

  /** A repeated order corrects the newest entry and leaves the limit alone. */
  lemma RepeatedOrder(w: Window, bits: nat, panic: bool, sceneStart: bool, recode: nat)
    requires w.Valid()
    ensures var w' := w.Record(bits, w.lastOrder, panic, sceneStart, recode);
            && |w'.history| == |w.history| && w'.limit == w.limit && w'.lastOrder == w.lastOrder
            && forall i :: 0 <= i < |w.history| ==> w'.history[i] == if i == |w.history| - 1 then bits else w.history[i]
  {
  }

  // ----- the cap over whole runs -----

  /** The last `k` frames exceed the window's maximum by less than `k` bits, for every `k` up to the window. */
  ghost predicate Capped(w: Window)
    requires w.size <= |w.history|
  {
    forall k :: 1 <= k <= w.size ==> SumLast(w.history, k, 0) <= MaxInt(w.maxWinBits, 1) + k - 1
  }

  lemma CreateIsCapped(windowSize: nat, maxBitPerFrame: nat, avgBitPerFrame: nat, lookAhead: bool)
    requires windowSize > 0
    ensures Capped(Create(windowSize, maxBitPerFrame, avgBitPerFrame, lookAhead))
  {
    var w := Create(windowSize, maxBitPerFrame, avgBitPerFrame, lookAhead);
    forall k | 1 <= k <= w.size ensures SumLast(w.history, k, 0) <= MaxInt(w.maxWinBits, 1) + k - 1 {
      SumLastOfPadding(w.history, k, maxBitPerFrame / 3);
      ProductsOrdered(k, windowSize, maxBitPerFrame / 3, maxBitPerFrame);
    }
  }

  lemma ProductsOrdered(a: nat, b: nat, x: nat, y: nat)
    requires a <= b && x <= y
    ensures a * x <= y * b
  {
    assert a * x <= a * y <= b * y;
  }

  lemma {:induction false} SumLastOfPadding(s: seq<nat>, n: nat, x: nat)
    requires n <= |s| && forall i :: 0 <= i < |s| ==> s[i] == x
    ensures SumLast(s, n, 0) == n * x
  {
    if n > 0 {
      SumLastOfPadding(s, n - 1, x);
    }
  }

  /** A new frame of at most the maximum keeps the cap. */
  lemma RecordKeepsCap(w: Window, bits: nat, order: nat, panic: bool, sceneStart: bool, recode: nat)
    requires w.Valid() && Capped(w)
    requires order != w.lastOrder
    requires bits <= w.MaxFrameSize(panic, sceneStart, recode)
    ensures Capped(w.Record(bits, order, panic, sceneStart, recode))
  {
    var w' := w.Record(bits, order, panic, sceneStart, recode);
    MaxFrameSizeMeaning(w, panic, sceneStart, recode);
    forall k | 1 <= k <= w.size ensures SumLast(w'.history, k, 0) <= MaxInt(w.maxWinBits, 1) + k - 1 {
      SumLastAppend(w.history, bits, k - 1, 0);
      SumLastGrows(w.history, k - 1, w.size - 1);
      if k > 1 {
        assert SumLast(w.history, k - 1, 0) <= MaxInt(w.maxWinBits, 1) + (k - 1) - 1;
      }
    }
  }

  /** One recorded frame of a run, with the flags `UpdateFrame` passes to both operations. */
  datatype Entry = Entry(bits: nat, order: nat, panic: bool, sceneStart: bool, recode: nat)

  function RecordAll(w: Window, run: seq<Entry>): (w': Window)
    requires 1 <= w.size <= |w.history|
    ensures w'.size == w.size && w'.maxWinBits == w.maxWinBits && w'.size <= |w'.history|
    decreases |run|
  {
    if run == [] then w
    else
      var e := run[0];
      RecordAll(w.Record(e.bits, e.order, e.panic, e.sceneStart, e.recode), run[1..])
  }

  /** Every frame of the run is new and at most the maximum reported just before. */
  predicate EachWithinMax(w: Window, run: seq<Entry>)
    requires 1 <= w.size <= |w.history|
    decreases |run|
  {
    run == []
    || var e := run[0];
       && e.order != w.lastOrder
       && e.bits <= w.MaxFrameSize(e.panic, e.sceneStart, e.recode)
       && EachWithinMax(w.Record(e.bits, e.order, e.panic, e.sceneStart, e.recode), run[1..])
  }

  function WindowSum(bits: seq<nat>, i: nat, size: nat): nat
    requires i + size <= |bits|
  {
    Sum(bits[i..i + size])
  }

  /** Every `size` consecutive entries of `bits` from position `from` on sum to at most `bound`. */
  ghost predicate EveryWindowWithin(bits: seq<nat>, size: nat, bound: int, from: nat) {
    forall i :: from <= i <= |bits| - size ==> WindowSum(bits, i, size) <= bound
  }

  lemma OneMoreWindow(bits: seq<nat>, size: nat, bound: int, from: nat)
    requires from + size <= |bits| && WindowSum(bits, from, size) <= bound
    requires from + size < |bits| ==> EveryWindowWithin(bits, size, bound, from + 1)
    ensures EveryWindowWithin(bits, size, bound, from)
  {
  }

  lemma {:induction false} RunIsCapped(w: Window, run: seq<Entry>)
    requires w.Valid() && Capped(w) && EachWithinMax(w, run)
    ensures var w' := RecordAll(w, run);
            && w'.Valid() && Capped(w')
            && w'.history == w.history + BitsOf(run)
            && EveryWindowWithin(w'.history, w.size, MaxInt(w.maxWinBits, 1) + w.size - 1, |w.history| - w.size)
    decreases |run|
  {
    hide Window.Record, Window.MaxFrameSize, Window.Valid, Capped, EveryWindowWithin, WindowSum;
    ValidHistory(w);
    LastWindow(w, BitsOf(run));
    if run == [] {
      assert w.history + BitsOf(run) == w.history;
    } else {
      var e := run[0];
      RecordKeepsLimitInRange(w, e.bits, e.order, e.panic, e.sceneStart, e.recode);
      RecordKeepsCap(w, e.bits, e.order, e.panic, e.sceneStart, e.recode);
      RecordAppends(w, e.bits, e.order, e.panic, e.sceneStart, e.recode);
      RunIsCapped(w.Record(e.bits, e.order, e.panic, e.sceneStart, e.recode), run[1..]);
      assert w.history + BitsOf(run) == w.history + [e.bits] + BitsOf(run[1..]);
    }
    OneMoreWindow(w.history + BitsOf(run), w.size, MaxInt(w.maxWinBits, 1) + w.size - 1, |w.history| - w.size);
  }

  lemma ValidHistory(w: Window)
    requires w.Valid()
    ensures 1 <= w.size <= |w.history|
  {
  }

  lemma RecordAppends(w: Window, bits: nat, order: nat, panic: bool, sceneStart: bool, recode: nat)
    requires 1 <= w.size <= |w.history| && order != w.lastOrder
    ensures var w' := w.Record(bits, order, panic, sceneStart, recode);
            && w'.history == w.history + [bits] && w'.lastOrder == order
            && w'.size == w.size && w'.maxWinBits == w.maxWinBits && w'.avg == w.avg && w'.lookAhead == w.lookAhead
  {
  }

  function BitsOf(run: seq<Entry>): (s: seq<nat>)
    ensures |s| == |run|
  {
    if run == [] then [] else [run[0].bits] + BitsOf(run[1..])
  }

  lemma LastWindow(w: Window, later: seq<nat>)
    requires w.Valid() && Capped(w)
    ensures WindowSum(w.history + later, |w.history| - w.size, w.size) <= MaxInt(w.maxWinBits, 1) + w.size - 1
  {
    var from := |w.history| - w.size;
    assert (w.history + later)[from..from + w.size] == w.history[from..];
    SumLastIsSum(w.history, w.size);
  }

  /** The limiter's promise, from its configuration alone: in every run that respects the reported maximum,
      every `windowSize` consecutive frames (padding included) sum to less than `windowSize` bits over
      `maxBitPerFrame` each. */
  lemma {:induction false} SlidingWindowCap(
    windowSize: nat, maxBitPerFrame: nat, avgBitPerFrame: nat, lookAhead: bool, run: seq<Entry>)
    requires windowSize > 0
    requires EachWithinMax(Create(windowSize, maxBitPerFrame, avgBitPerFrame, lookAhead), run)
    ensures EveryWindowWithin(Padding(windowSize, maxBitPerFrame) + BitsOf(run), windowSize,
                              MaxInt(maxBitPerFrame * windowSize, 1) + windowSize - 1, 0)
  {
    var w := Create(windowSize, maxBitPerFrame, avgBitPerFrame, lookAhead);
    CreateIsValid(windowSize, maxBitPerFrame, avgBitPerFrame, lookAhead);
    CreateIsCapped(windowSize, maxBitPerFrame, avgBitPerFrame, lookAhead);
    hide Window.LowestLimit, Window.Valid, Capped, EachWithinMax, RecordAll;
    RunIsCapped(w, run);
  }

  // ----- the class -----

  /** Where entry `i` back from the newest sits in a circular buffer of `size` slots. */
  function Slot(pos: nat, size: nat, i: nat): (k: nat)
    requires pos < size && i < size
    ensures k < size
  {
    (pos + size - i) % size
  }

  lemma SlotMeaning(pos: nat, size: nat, i: nat)
    requires pos < size && i < size
    ensures Slot(pos, size, i) == if i <= pos then pos - i else pos + size - i
  {
    if i <= pos {
      DivModUnique(pos + size - i, size, 1, pos - i);
    } else {
      DivModUnique(pos + size - i, size, 0, pos + size - i);
    }
  }

  lemma NextPosition(pos: nat, size: nat)
    requires pos < size
    ensures (pos + 1) % size == if pos + 1 == size then 0 else pos + 1
  {
    if pos + 1 == size {
      DivModUnique(pos + 1, size, 1, 0);
    } else {
      DivModUnique(pos + 1, size, 0, pos + 1);
    }
  }

  /** Advancing the position moves every entry one back; the newest slot holds no older entry. */
  lemma SlotShift(pos: nat, size: nat, i: nat)
    requires pos < size && i < size
    ensures 0 <= (pos + 1) % size < size
    ensures i > 0 ==> Slot((pos + 1) % size, size, i) == Slot(pos, size, i - 1)
    ensures Slot(pos, size, i) == pos <==> i == 0
  {
    hide Slot;
    var next := if pos + 1 == size then 0 else pos + 1;
    NextPosition(pos, size);
    SlotMeaning(pos, size, i);
    SlotMeaning(next, size, i);
    if i > 0 {
      SlotMeaning(pos, size, i - 1);
    }
  }

  class AvgBitrate {
    var maxWinBits: nat
    var maxWinBitsLim: int
    var avgBitPerFrame: nat
    var currPosInWindow: nat
    var lastFrameOrder: nat
    var lookAhead: bool
    const slidingWindow: array<nat>
    ghost var history: seq<nat>

    ghost function Abstract(): Window
      reads this
    {
      Window(maxWinBits, maxWinBitsLim, avgBitPerFrame, slidingWindow.Length, lookAhead, lastFrameOrder, history)
    }

    /** The circular buffer holds the newest entries of the history. */
    ghost predicate Holds()
      reads this, slidingWindow
    {
      && currPosInWindow < slidingWindow.Length <= |history|
      && forall i :: 0 <= i < slidingWindow.Length ==>
           slidingWindow[Slot(currPosInWindow, slidingWindow.Length, i)] == history[|history| - 1 - i]
    }

    ghost predicate Valid()
      reads this, slidingWindow
    {
      Holds() && Abstract().Valid()
    }

    constructor (windowSize: nat, maxBitPerFrame: nat, avgBitPerFrame: nat, lookAhead: bool)
      requires windowSize > 0
      ensures Valid() && fresh(slidingWindow)
      ensures Abstract() == Create(windowSize, maxBitPerFrame, avgBitPerFrame, lookAhead)
    {
      maxWinBits := maxBitPerFrame * windowSize;
      maxWinBitsLim := 0;
      this.avgBitPerFrame := MinInt(avgBitPerFrame, maxBitPerFrame);
      currPosInWindow := windowSize - 1;
      lastFrameOrder := 0xFFFF_FFFF;
      this.lookAhead := lookAhead;
      var filled := Filled(windowSize, maxBitPerFrame / 3);
      slidingWindow := filled;
      history := Padding(windowSize, maxBitPerFrame);
      new;
      hide Slot, GetStep, GetMaxWinBitsLim, Window.Step, Window.LowestLimit, Window.Valid;
      CreateIsValid(windowSize, maxBitPerFrame, avgBitPerFrame, lookAhead);
      maxWinBitsLim := GetMaxWinBitsLim();
    }

    static method Filled(size: nat, bits: nat) returns (a: array<nat>)
      ensures fresh(a) && a.Length == size
      ensures forall k :: 0 <= k < size ==> a[k] == bits
    {
      a := new nat[size];
      for i := 0 to size
        invariant forall k :: 0 <= k < i ==> a[k] == bits
      {
        a[i] := bits;
      }
    }

    method UpdateSlidingWindow(sizeInBits: nat, frameOrder: nat, panic: bool, sceneStart: bool, recode: nat)
      requires Valid()
      modifies this, slidingWindow
      ensures Valid()
      ensures Abstract() == old(Abstract()).Record(sizeInBits, frameOrder, panic, sceneStart, recode)
    {
      hide Slot, GetStep, GetMaxWinBitsLim, Window.Step, Window.LowestLimit, SumLast;
      ghost var before := Abstract();
      RecordKeepsLimitInRange(before, sizeInBits, frameOrder, panic, sceneStart, recode);
      var windowSize := slidingWindow.Length;
      var nextFrame := frameOrder != lastFrameOrder;
      Store(sizeInBits, frameOrder, nextFrame);
      if nextFrame {
        var winBits := GetLastFrameBits(windowSize, false);
        if panic || sceneStart {
          maxWinBitsLim := Clamp((winBits + maxWinBits) / 2, GetMaxWinBitsLim(), maxWinBits);
        } else if recode > 0 {
          maxWinBitsLim := Clamp(winBits + GetStep() / 2, maxWinBitsLim, maxWinBits);
        } else {
          var lastBits := GetLastFrameBits(windowSize - 1, false);
          if maxWinBitsLim > GetMaxWinBitsLim() + GetStep() && maxWinBitsLim - GetStep() > lastBits + sizeInBits {
            maxWinBitsLim := maxWinBitsLim - GetStep();
          }
        }
      }
    }

    /** The write to the circular buffer: a new frame takes the next slot, a repeated one its own slot again. */
    method Store(sizeInBits: nat, frameOrder: nat, nextFrame: bool)
      requires Holds()
      modifies this`currPosInWindow, this`lastFrameOrder, this`history, slidingWindow
      ensures Holds()
      ensures lastFrameOrder == if nextFrame then frameOrder else old(lastFrameOrder)
      ensures history ==
        if nextFrame then old(history) + [sizeInBits] else old(history)[|old(history)| - 1 := sizeInBits]
    {
      hide Slot;
      var size := slidingWindow.Length;
      ghost var pos := currPosInWindow;
      if nextFrame {
        lastFrameOrder := frameOrder;
        currPosInWindow := (currPosInWindow + 1) % size;
      }
      SlotShift(pos, size, 0);
      slidingWindow[currPosInWindow] := sizeInBits;
      history := if nextFrame then history + [sizeInBits] else history[|history| - 1 := sizeInBits];
      forall i | 0 <= i < size
        ensures slidingWindow[Slot(currPosInWindow, size, i)] == history[|history| - 1 - i]
      {
        SlotShift(currPosInWindow, size, i);
        SlotShift(pos, size, i);
        assert i > 0 ==> old(slidingWindow[Slot(pos, size, if nextFrame then i - 1 else i)])
                         == old(history)[|old(history)| - 1 - if nextFrame then i - 1 else i];
      }
    }

    method GetMaxFrameSize(panic: bool, sceneStart: bool, recode: nat) returns (maxFrameSize: nat)
      requires Valid()
      ensures maxFrameSize == Abstract().MaxFrameSize(panic, sceneStart, recode)
    {
      var winBits := GetLastFrameBits(GetWindowSize() - 1, !panic);
      var lim := maxWinBitsLim;
      if sceneStart {
        lim := (maxWinBits + maxWinBitsLim) / 2;
      }
      if panic {
        lim := maxWinBits;
      }
      lim := MinInt(lim + recode * GetStep() / 2, maxWinBits);
      MaxFrameSizeIsPositive(Abstract(), panic, sceneStart, recode);
      maxFrameSize := if winBits >= maxWinBitsLim then MaxInt(maxWinBits - winBits, 1) else lim - winBits;
    }

    function GetWindowSize(): nat { slidingWindow.Length }

    method GetLastFrameBits(numFrames: nat, checkSkip: bool) returns (size: nat)
      requires Holds()
      ensures size == Abstract().LastFrameBits(numFrames, checkSkip)
    {
      size := 0;
      var n := MinInt(numFrames, slidingWindow.Length);
      ghost var least := if checkSkip then avgBitPerFrame / 3 else 0;
      for i := 0 to n
        invariant size == SumLast(history, i, least)
      {
        var frameSize := slidingWindow[(currPosInWindow + slidingWindow.Length - i) % slidingWindow.Length];
        assert frameSize == history[|history| - 1 - i] by {
          assert Slot(currPosInWindow, slidingWindow.Length, i)
              == (currPosInWindow + slidingWindow.Length - i) % slidingWindow.Length;
        }
        if checkSkip && frameSize < avgBitPerFrame / 3 {
          frameSize := avgBitPerFrame / 3;
        }
        size := size + frameSize;
      }
    }

    function GetStep(): (step: int)
      requires slidingWindow.Length > 0
      reads this
      ensures step == Abstract().Step()
    {
      (maxWinBits / GetWindowSize() - avgBitPerFrame) / if lookAhead then 4 else 2
    }

    function GetMaxWinBitsLim(): (lim: int)
      requires slidingWindow.Length > 0
      reads this
      ensures lim == Abstract().LowestLimit()
    {
      maxWinBits - GetStep() * GetWindowSize()
    }
  }
}
