// The progress report of the multi-channel DMA: what is computed from a stable snapshot of a channel's pointers.
module DmaProgress {
  import opened Words

  // ----- 32-bit arithmetic -----

  const TWO32: nat := 0x1_0000_0000
  const NCHANNELS: nat := 16

  /** An unsigned 32-bit value. */
  function U32(x: int): (u: nat)
    ensures u < TWO32
  {
    x % TWO32
  }

  /** A signed 32-bit value. */
  function S32(x: int): (s: int)
    ensures -0x8000_0000 <= s < 0x8000_0000
  {
    if U32(x) < 0x8000_0000 then U32(x) else U32(x) - TWO32
  }

  function Abs(a: int): nat { if a < 0 then -a else a }

  /** Division that truncates towards zero. */
  function Truncated(a: int, b: int): int
    requires b != 0
  {
    if (a < 0) == (b < 0) then Abs(a) / Abs(b) else -(Abs(a) / Abs(b))
  }

  /** The size of one data movement is a power of two. */
  predicate XferSize(xs: nat) { IsPow2(xs) && xs <= 0x8000_0000 }

  predicate Short(x: int) { -0x8000 <= x < 0x8000 }

  function Sign(x: int): int { if x < 0 then -1 else if x > 0 then 1 else 0 }

  // ----- the report -----

  /** The parameters remembered for a channel. */
  datatype Variant = Variant(destRsd: int, srcRsd: int, destIncr: int, srcIncr: int, xferSize: nat)

  predicate Started(v: Variant)
  {
    Short(v.destIncr) && Short(v.srcIncr) && XferSize(v.xferSize) && v.destRsd == Sign(v.destIncr) && v.srcRsd == Sign(v.srcIncr)
  }

  /** The addresses of the current buffer descriptor, and a progress report. */
  datatype Buffer = Buffer(src: Dword, dest: Dword)

  datatype Report = Report(lastSrc: Dword, lastDest: Dword, dmaSize: Dword)

  /** The bytes moved by a transfer with decreasing destination addresses. */
  function SizeDown(incr: int, xs: nat, dest: Dword, last: Dword): (n: Dword)
    requires incr != 0 && xs > 0
  {
    var sub, add := last % xs, dest % xs;
    var diff := S32((dest - add) - (last - sub));
    var rest := S32(S32(Truncated(diff, incr)) * U32(incr + xs));
    U32(diff - rest + add - sub)
  }

  /** The bytes moved by a transfer with increasing destination addresses. */
  function SizeUp(incr: int, xs: nat, dest: Dword, last: Dword): (n: Dword)
    requires incr != 0 && xs > 0
  {
    var sub, add := dest % xs, last % xs;
    var diff := S32(last - (dest - sub));
    var rest := S32(S32(Truncated(S32((last - add) - (dest - sub)), incr)) * U32(incr - xs));
    U32(diff - rest - sub)
  }

  /** A source address after size bytes moved in movements of xs bytes. */
  function Advanced(src: Dword, incr: int, xs: nat, size: Dword): Dword
    requires xs > 0
  {
    U32(src + U32(incr * (size / xs)))
  }

  lemma AdvancedIs(src: Dword, incr: int, xs: nat, size: Dword)
    requires xs > 0
    ensures Advanced(src, incr, xs, size) == (src + incr * (size / xs)) % 0x1_0000_0000
  {
    var _, j := Off(incr * (size / xs));
    Wraps(src + incr * (size / xs), j);
  }

  /** The report made from a snapshot. */
  function Progress(v: Variant, b: Buffer, snap: Report): Report
    requires Started(v)
  {
    var size := if v.destRsd < 0 then SizeDown(v.destIncr, v.xferSize, b.dest, snap.lastDest)
                else if v.destRsd > 0 then SizeUp(v.destIncr, v.xferSize, b.dest, snap.lastDest)
                else snap.dmaSize;
    Report(if v.srcRsd == 0 then b.src else Advanced(b.src, v.srcIncr, v.xferSize, size),
           if v.destRsd == 0 then b.dest else snap.lastDest,
           size)
  }

  datatype Status = MCD_OK | MCD_CHANNEL_INVALID

  class Dma {
    const remDestRsdIncr: array<int>
    const remSrcRsdIncr: array<int>
    const remDestIncr: array<int>
    const remSrcIncr: array<int>
    const remXferSize: array<nat>

    ghost predicate Valid()
      reads remDestRsdIncr, remSrcRsdIncr, remDestIncr, remSrcIncr, remXferSize
    {
      && remDestRsdIncr.Length == remSrcRsdIncr.Length == NCHANNELS
      && remDestIncr.Length == remSrcIncr.Length == remXferSize.Length == NCHANNELS
      && remDestRsdIncr != remSrcRsdIncr && remDestRsdIncr != remDestIncr && remDestRsdIncr != remSrcIncr
      && remSrcRsdIncr != remDestIncr && remSrcRsdIncr != remSrcIncr && remDestIncr != remSrcIncr
    }

    /** What is remembered for a channel. */
    function Remembered(channel: nat): Variant
      reads remDestRsdIncr, remSrcRsdIncr, remDestIncr, remSrcIncr, remXferSize
      requires Valid() && channel < NCHANNELS
    {
      Variant(remDestRsdIncr[channel], remSrcRsdIncr[channel], remDestIncr[channel], remSrcIncr[channel], remXferSize[channel])
    }

    constructor ()
      ensures Valid()
    {
      remDestRsdIncr := new int[NCHANNELS](_ => 0);
      remSrcRsdIncr := new int[NCHANNELS](_ => 0);
      remDestIncr := new int[NCHANNELS](_ => 0);
      remSrcIncr := new int[NCHANNELS](_ => 0);
      remXferSize := new nat[NCHANNELS](_ => 0);
    }

    /** MCD_startDma: the parameters are remembered for the progress report. */
    method StartDma(channel: int, srcIncr: int, destIncr: int, xferSize: nat) returns (res: Status)
      requires Valid() && Short(srcIncr) && Short(destIncr) && XferSize(xferSize)
      modifies remDestRsdIncr, remSrcRsdIncr, remDestIncr, remSrcIncr, remXferSize
      ensures Valid()
      ensures res == MCD_OK <==> 0 <= channel < NCHANNELS
      ensures forall c: nat :: c < NCHANNELS ==>
        Remembered(c) ==
          if c == channel then Variant(Sign(destIncr), Sign(srcIncr), destIncr, srcIncr, xferSize) else old(Remembered(c))
    {
      if channel < 0 || channel >= NCHANNELS { return MCD_CHANNEL_INVALID; }
      var srcRsdIncr := if srcIncr < 0 then -1 else if srcIncr > 0 then 1 else 0;
      var destRsdIncr := if destIncr < 0 then -1 else if destIncr > 0 then 1 else 0;
      remSrcRsdIncr[channel] := srcRsdIncr;
      remDestRsdIncr[channel] := destRsdIncr;
      remDestIncr[channel] := destIncr;
      remSrcIncr[channel] := srcIncr;
      remXferSize[channel] := xferSize;
      return MCD_OK;
    }

    /** The destination moves down: the bytes moved. */
    method CountDown(dest: Dword, last: Dword, incr: int, xs: nat) returns (n: Dword)
      requires XferSize(xs) && incr != 0
      ensures n == SizeDown(incr, xs, dest, last)
    {
      AndMask(last, xs);
      AndMask(dest, xs);
      var subMod, addMod := And(last, xs - 1), And(dest, xs - 1);
      var alignedInit := dest - addMod;
      var alignedCurr := last - subMod;
      var destDiff := S32(alignedInit - alignedCurr);
      var notXfered := S32(S32(Truncated(destDiff, incr)) * U32(incr + xs));
      n := U32(destDiff - notXfered + addMod - subMod);
    }

    /** The destination moves up. */
    method CountUp(dest: Dword, last: Dword, incr: int, xs: nat) returns (n: Dword)
      requires XferSize(xs) && incr != 0
      ensures n == SizeUp(incr, xs, dest, last)
    {
      AndMask(last, xs);
      AndMask(dest, xs);
      var subMod, addMod := And(dest, xs - 1), And(last, xs - 1);
      var alignedInit := dest - subMod;
      var alignedCurr := last - addMod;
      var destDiff := S32(last - alignedInit);
      var iterations := S32(Truncated(S32(alignedCurr - alignedInit), incr));
      var notXfered := S32(iterations * U32(incr - xs));
      n := U32(destDiff - notXfered - subMod);
    }

    /** MCD_XferProgrQuery, from a stable snapshot on. */
    method XferProgrQuery(channel: int, bd: Buffer, snap: Report) returns (res: Status, p: Report)
      requires Valid() && (0 <= channel < NCHANNELS ==> Started(Remembered(channel)))
      ensures res == MCD_OK <==> 0 <= channel < NCHANNELS
      ensures res == MCD_OK ==> p == Progress(Remembered(channel), bd, snap)
      // an address that does not move is that of the descriptor; a source moves with the movements counted
      ensures res == MCD_OK ==>
        var v := Remembered(channel);
        && (v.destIncr == 0 ==> p.lastDest == bd.dest && p.dmaSize == snap.dmaSize)
        && (v.destIncr != 0 ==> p.lastDest == snap.lastDest)
        && (v.srcIncr == 0 ==> p.lastSrc == bd.src)
        && (v.srcIncr != 0 && v.xferSize > 0 ==> p.lastSrc == (bd.src + v.srcIncr * (p.dmaSize / v.xferSize)) % 0x1_0000_0000)
      // what the report means, for contiguous and for strided transfers
      ensures res == MCD_OK && Abs(Remembered(channel).destIncr) == Remembered(channel).xferSize ==>
        p.dmaSize == U32(if Remembered(channel).destIncr > 0 then snap.lastDest - bd.dest else bd.dest - snap.lastDest)
      ensures res == MCD_OK ==> forall n: nat ::
        Stepped(Remembered(channel), bd, snap, n) ==> Exact(Remembered(channel), bd, p, n)
      ensures res == MCD_OK ==> forall n: nat, r: nat :: Midway(Remembered(channel), bd, snap, n, r) ==>
        var xs, d := Remembered(channel).xferSize, bd.dest % Remembered(channel).xferSize;
        p.dmaSize == (n * xs + if Remembered(channel).destIncr > 0 then r - d else d - r) % 0x1_0000_0000
    {
      hide Advanced, SizeDown, SizeUp, IsPow2, Exact, U32;
      p := snap;
      if channel < 0 || channel >= NCHANNELS { return MCD_CHANNEL_INVALID, p; }
      var xs := remXferSize[channel];
      PowPositive(xs);
      if remDestRsdIncr[channel] == -1 {
        var n := CountDown(bd.dest, p.lastDest, remDestIncr[channel], xs);
        p := p.(dmaSize := n);
      } else if remDestRsdIncr[channel] == 0 {
        p := p.(lastDest := bd.dest);
      } else {
        var n := CountUp(bd.dest, p.lastDest, remDestIncr[channel], xs);
        p := p.(dmaSize := n);
      }
      if remSrcRsdIncr[channel] == 0 {
        p := p.(lastSrc := bd.src);
      } else {
        p := p.(lastSrc := Advanced(bd.src, remSrcIncr[channel], xs, p.dmaSize));
      }
      ghost var v := Remembered(channel);
      if Abs(v.destIncr) == v.xferSize { Contiguous(v, bd, snap); }
      forall n: nat | Stepped(v, bd, snap, n) ensures Exact(v, bd, p, n) { StridedExact(v, bd, snap, n); }
      forall n: nat, r: nat | Midway(v, bd, snap, n, r)
        ensures p.dmaSize == (n * xs + if v.destIncr > 0 then r - bd.dest % xs else bd.dest % xs - r) % 0x1_0000_0000
      {
        MidwaySize(v, bd, snap, n, r);
      }
      AdvancedIs(bd.src, v.srcIncr, xs, p.dmaSize);
      return MCD_OK, p;
    }
  }

  /** The snapshot stands after n movements of an aligned strided transfer, and all of them fit the address space. */
  predicate Stepped(v: Variant, b: Buffer, snap: Report, n: nat)
  {
    && XferSize(v.xferSize) && v.xferSize > 0 && v.destIncr != 0 && v.destIncr % v.xferSize == 0 && b.dest % v.xferSize == 0
    && n * Abs(v.destIncr) < TWO32 && snap.lastDest == U32(b.dest + n * v.destIncr)
  }

  /** The report tells n movements exactly when the distance fits a signed word or nothing is skipped. */
  predicate Exact(v: Variant, b: Buffer, p: Report, n: nat)
  {
    && (p.dmaSize == n * v.xferSize <==> n * Abs(v.destIncr) < 0x8000_0000 || Abs(v.destIncr) == v.xferSize)
    && (p.dmaSize == n * v.xferSize ==> p.lastSrc == U32(b.src + n * v.srcIncr))
  }

  lemma PowPositive(xs: nat)
    requires IsPow2(xs)
    ensures xs > 0
  {
  }

  // ----- congruence modulo 2^32 -----

  lemma Wraps(x: int, k: int)
    ensures U32(x + k * TWO32) == U32(x)
  {
    ModStep(x, k);
  }

  lemma {:induction false} ModStep(x: int, k: int)
    ensures (x + k * TWO32) % TWO32 == x % TWO32
    decreases if k < 0 then -k else k
  {
    if k > 0 { ModStep(x, k - 1); } else if k < 0 { ModStep(x, k + 1); }
  }

  /** A 32-bit value differs from what it is made of by a multiple of 2^32. */
  lemma Off(x: int) returns (k: int, j: int)
    ensures S32(x) == x + k * TWO32 && U32(x) == x + j * TWO32
  {
    j := -(x / TWO32);
    k := if U32(x) < 0x8000_0000 then j else j - 1;
  }

  // ----- contiguous transfers -----

  /** A transfer whose destination moves by the size of each movement reports the distance covered, for any alignment. */
  lemma Contiguous(v: Variant, b: Buffer, snap: Report)
    requires Started(v) && Abs(v.destIncr) == v.xferSize
    ensures Progress(v, b, snap).dmaSize == U32(if v.destIncr > 0 then snap.lastDest - b.dest else b.dest - snap.lastDest)
    ensures Progress(v, b, snap).lastDest == snap.lastDest
  {
    hide SizeUp, SizeDown;
    if v.destIncr > 0 { ContiguousUp(v, b.dest, snap.lastDest); } else { ContiguousDown(v, b.dest, snap.lastDest); }
  }

  lemma ContiguousUp(v: Variant, dest: Dword, last: Dword)
    requires XferSize(v.xferSize) && v.destIncr == v.xferSize
    ensures SizeUp(v.destIncr, v.xferSize, dest, last) == U32(last - dest)
  {
    hide S32, Truncated, U32;
    var sub, add := dest % v.xferSize, last % v.xferSize;
    NoRest(S32(Truncated(S32((last - add) - (dest - sub)), v.destIncr)));
    Shifted(last - (dest - sub), sub);
  }

  lemma ContiguousDown(v: Variant, dest: Dword, last: Dword)
    requires XferSize(v.xferSize) && -v.destIncr == v.xferSize
    ensures SizeDown(v.destIncr, v.xferSize, dest, last) == U32(dest - last)
  {
    hide S32, Truncated, U32;
    var sub: int, add: int := last % v.xferSize, dest % v.xferSize;
    NoRest(S32(Truncated(S32((dest - add) - (last - sub)), v.destIncr)));
    Shifted((dest - add) - (last - sub), sub - add);
  }

  lemma Shifted(x: int, y: int)
    ensures U32(S32(x) - y) == U32(x - y)
  {
    var k, _ := Off(x);
    Wraps(x - y, k);
  }

  lemma NoRest(q: int)
    ensures S32(q * U32(0)) == 0
  {
  }

  // ----- strided transfers -----

  /** A power of two divides a larger one. */
  lemma {:induction false} Divides(m: nat, k: nat) returns (q: nat)
    requires IsPow2(m) && m <= Pow2(k)
    ensures Pow2(k) == q * m
  {
    if m == 1 {
      q := Pow2(k);
    } else {
      q := Divides(m / 2, k - 1);
      assert 2 * (q * (m / 2)) == q * m;
    }
  }

  lemma DividesWord(m: nat) returns (q: nat)
    requires XferSize(m)
    ensures TWO32 == q * m
  {
    assert Pow2(8) == 0x100;
    assert Pow2(16) == 0x100 * Pow2(8);
    assert Pow2(24) == 0x100 * Pow2(16);
    assert Pow2(32) == 0x100 * Pow2(24);
    q := Divides(m, 32);
  }

  /** The destination after n movements from an aligned start is aligned. */
  lemma StaysAligned(dest: Dword, incr: int, xs: nat, n: nat)
    requires XferSize(xs) && dest % xs == 0 && incr % xs == 0
    ensures U32(dest + n * incr) % xs == 0
  {
    var w := DividesWord(xs);
    var a, c := dest / xs, incr / xs;
    var t := (dest + n * incr) / TWO32;
    assert dest == a * xs && incr == c * xs;
    assert n * incr == (n * c) * xs by { Regroup(n, c, xs); }
    assert t * TWO32 == (t * w) * xs by { Regroup(t, w, xs); }
    assert U32(dest + n * incr) == (a + n * c - t * w) * xs by { Spread(a, n * c, t * w, xs); }
    ModUnique(U32(dest + n * incr), xs, a + n * c - t * w, 0);
  }

  lemma Regroup(a: int, b: int, c: int)
    ensures a * (b * c) == (a * b) * c
  {
  }

  lemma Spread(a: int, b: int, c: int, m: int)
    ensures (a + b - c) * m == a * m + b * m - c * m
  {
  }

  /** The movements not seen when the distance does not fit a signed word. */
  function Lost(n: int, m: int): int
    requires m > 0
  {
    if n * m < 0x8000_0000 then 0 else TWO32 / m
  }

  /** The signed distance divided by the stride, either way. */
  lemma Divided(n: nat, m: int, d: int)
    requires m > 0 && n * m < TWO32 && d == S32(n * m)
    ensures Truncated(d, m) == n - Lost(n, m) && Truncated(d, -m) == Lost(n, m) - n
  {
    if n * m < 0x8000_0000 {
      ModUnique(n * m, m, n, 0);
    } else {
      var q, r := TWO32 / m, TWO32 % m;
      assert (q - n) * m == q * m - n * m;
      ModUnique(TWO32 - n * m, m, q - n, r);
    }
  }

  /** A product of wrapped factors is the product, modulo 2^32. */
  lemma Product(t: int, y: int) returns (k: int)
    ensures S32(S32(t) * U32(y)) == t * y + k * TWO32
  {
    var a, _ := Off(t);
    var _, b := Off(y);
    var c, _ := Off(S32(t) * U32(y));
    k := a * y + t * b + a * b * TWO32 + c;
    Expand(t, a, y, b);
  }

  lemma Expand(t: int, a: int, y: int, b: int)
    ensures (t + a * TWO32) * (y + b * TWO32) == t * y + (a * y + t * b + a * b * TWO32) * TWO32
  {
    assert (t + a * TWO32) * (y + b * TWO32) == t * y + t * (b * TWO32) + (a * TWO32) * y + (a * TWO32) * (b * TWO32);
  }

  /** What goes missing when the distance does not fit a signed word. */
  lemma Missing(m: int, xs: int)
    requires 0 < xs <= m < TWO32
    ensures 0 <= TWO32 / m * (m - xs) < TWO32
    ensures TWO32 / m * (m - xs) == 0 <==> m == xs
  {
    var q := TWO32 / m;
    assert q * m <= TWO32 && q >= 1;
    assert q * (m - xs) == q * m - q * xs;
    assert q * xs >= 1;
    if m > xs { assert q * (m - xs) >= 1; }
  }

  /** The size reported for n movements of stride m, up or down. */
  function Reported(n: int, m: int, xs: int): nat
    requires m > 0
  {
    U32(n * xs + Lost(n, m) * (m - xs))
  }

  /** The wrapped difference of a wrapped number and a wrapped product. */
  lemma Difference(w: int, t: int, y: int, r: int)
    requires w - t * y == r
    ensures U32(S32(w) - S32(S32(t) * U32(y))) == U32(r)
  {
    hide S32, U32;
    var j, _ := Off(w);
    var k := Product(t, y);
    Wraps(r, j - k);
  }

  /** Both directions compute that size from the signed distance d. */
  lemma Computed(n: nat, m: int, xs: int, d: int)
    requires m > 0 && n * m < TWO32 && d == S32(n * m)
    ensures U32(d - S32(S32(Truncated(d, m)) * U32(m - xs))) == Reported(n, m, xs)
    ensures U32(d - S32(S32(Truncated(d, -m)) * U32(-m + xs))) == Reported(n, m, xs)
  {
    hide Truncated, S32, U32, Lost;
    Divided(n, m, d);
    var t: int := n - Lost(n, m);
    var r := n * xs + Lost(n, m) * (m - xs);
    Collect(n, m, xs, t);
    Negated(t, m - xs);
    Difference(n * m, t, m - xs, r);
    Difference(n * m, -t, -m + xs, r);
  }

  lemma Negated(t: int, y: int)
    ensures (-t) * (-y) == t * y
  {
  }

  lemma Collect(n: int, m: int, xs: int, t: int)
    ensures n * m - t * (m - xs) == n * xs + (n - t) * (m - xs)
  {
    assert (n - t) * (m - xs) == n * m - n * xs - t * (m - xs);
  }

  /** The size after n movements of an aligned strided transfer. */
  lemma StridedSize(v: Variant, dest: Dword, last: Dword, n: nat)
    requires Started(v) && v.destIncr != 0 && v.destIncr % v.xferSize == 0 && dest % v.xferSize == 0
    requires n * Abs(v.destIncr) < TWO32 && last == U32(dest + n * v.destIncr)
    ensures Reported(n, Abs(v.destIncr), v.xferSize) ==
      if v.destIncr < 0 then SizeDown(v.destIncr, v.xferSize, dest, last) else SizeUp(v.destIncr, v.xferSize, dest, last)
  {
    hide Truncated, S32, Reported, U32, IsPow2;
    var m := Abs(v.destIncr);
    StaysAligned(dest, v.destIncr, v.xferSize, n);
    var _, j := Off(dest + n * v.destIncr);
    if v.destIncr < 0 {
      assert n * v.destIncr == -(n * m);
      Wraps(n * m, -j);
      SignedAs(dest - last, n * m);
    } else {
      Wraps(n * m, j);
      SignedAs(last - dest, n * m);
    }
    Computed(n, m, v.xferSize, S32(n * m));
  }

  lemma SignedAs(x: int, y: int)
    requires U32(x) == U32(y)
    ensures S32(x) == S32(y)
  {
  }

  /**
   * An aligned strided transfer after n movements: the report is n times the movement size, and the source
   * address n strides on, exactly when the distance fits a signed word or the stride is the movement size.
   */
  lemma Strided(v: Variant, b: Buffer, snap: Report, n: nat)
    requires Started(v) && v.destIncr != 0 && v.destIncr % v.xferSize == 0 && b.dest % v.xferSize == 0
    requires n * Abs(v.destIncr) < TWO32 && snap.lastDest == U32(b.dest + n * v.destIncr)
    ensures Progress(v, b, snap).dmaSize == n * v.xferSize
      <==> n * Abs(v.destIncr) < 0x8000_0000 || Abs(v.destIncr) == v.xferSize
    ensures Progress(v, b, snap).dmaSize == n * v.xferSize ==> Progress(v, b, snap).lastSrc == U32(b.src + n * v.srcIncr)
  {
    hide SizeUp, SizeDown, Reported, U32;
    StridedSize(v, b.dest, snap.lastDest, n);
    AtLeast(v.destIncr, v.xferSize);
    ReportedIff(n, Abs(v.destIncr), v.xferSize);
    SourceAt(b.src, v.srcIncr, n, v.xferSize);
  }

  lemma ReportedIff(n: nat, m: int, xs: int)
    requires 0 < xs <= m < TWO32 && n * m < TWO32
    ensures Reported(n, m, xs) == n * xs <==> n * m < 0x8000_0000 || m == xs
  {
    assert n * xs <= n * m by { Grows(n, xs, m); }
    Missing(m, xs);
    Sum(n * xs, Lost(n, m) * (m - xs));
  }

  lemma Grows(n: int, a: int, b: int)
    requires a <= b && 0 <= n
    ensures n * a <= n * b
  {
    assert n * b - n * a == n * (b - a);
  }

  lemma Sum(a: nat, e: nat)
    requires a < TWO32 && e < TWO32
    ensures U32(a + e) == a <==> e == 0
  {
  }

  /** The source address reported after n movements. */
  lemma SourceAt(src: Dword, incr: int, n: nat, xs: nat)
    requires xs > 0
    ensures n * xs / xs == n
    ensures U32(src + U32(incr * n)) == U32(src + n * incr)
    ensures U32(src) == src && n * 0 == 0
  {
    ModUnique(n * xs, xs, n, 0);
    var _, j := Off(incr * n);
    Wraps(src + n * incr, j);
  }

  /** A multiple of xs that is not zero is at least as large. */
  lemma AtLeast(incr: int, xs: nat)
    requires xs > 0 && incr != 0 && incr % xs == 0
    ensures xs <= Abs(incr)
  {
    var c := incr / xs;
    assert incr == c * xs;
    if c > 0 { assert c * xs >= xs; } else { assert (-c) * xs >= xs; }
  }

  lemma StridedExact(v: Variant, b: Buffer, snap: Report, n: nat)
    requires Started(v) && Stepped(v, b, snap, n)
    ensures Exact(v, b, Progress(v, b, snap), n)
  {
    hide Progress, U32;
    Strided(v, b, snap, n);
  }

  /** The destination is r bytes into movement n + 1, counted from the movement boundary at or below the start. */
  predicate Midway(v: Variant, b: Buffer, snap: Report, n: nat, r: nat)
  {
    && XferSize(v.xferSize) && v.destIncr != 0 && v.xferSize > 0 && v.destIncr % v.xferSize == 0 && r < v.xferSize
    && n * Abs(v.destIncr) + r < 0x8000_0000
    && snap.lastDest == b.dest - b.dest % v.xferSize + n * v.destIncr + r
  }

  /** The bytes of n movements, with those of the part of a movement at either end. */
  lemma MidwaySize(v: Variant, b: Buffer, snap: Report, n: nat, r: nat)
    requires Started(v) && Midway(v, b, snap, n, r)
    ensures Progress(v, b, snap).dmaSize ==
      (n * v.xferSize + if v.destIncr > 0 then r - b.dest % v.xferSize else b.dest % v.xferSize - r) % 0x1_0000_0000
  {
    hide Truncated, S32, IsPow2, SizeUp, SizeDown;
    var xs, m := v.xferSize, Abs(v.destIncr);
    var q, base: int := b.dest % xs, b.dest - b.dest % xs;
    Remainder(b.dest, v.destIncr, xs, n, r);
    if v.destIncr > 0 {
      MidwayUp(v, b, snap, n, r);
    } else {
      MidwayDown(v, b, snap, n, r);
    }
  }

  lemma Remainder(dest: Dword, incr: int, xs: nat, n: nat, r: nat)
    requires xs > 0 && incr % xs == 0 && r < xs
    ensures (dest - dest % xs + n * incr + r) % xs == r
  {
    var a, c := dest / xs, incr / xs;
    assert n * incr == (n * c) * xs by { Regroup(n, c, xs); }
    assert dest - dest % xs + n * incr == (a + n * c) * xs by { Spread(a, n * c, 0, xs); }
    ModUnique((a + n * c) * xs + r, xs, a + n * c, r);
  }

  lemma Fits(x: int)
    requires -0x8000_0000 <= x < 0x8000_0000
    ensures S32(x) == x
  {
  }

  lemma Counted(n: nat, m: nat)
    requires m > 0 && n * m < 0x8000_0000
    ensures Truncated(n * m, m) == n && Truncated(n * m, 0 - m) == 0 - n
  {
    ModUnique(n * m, m, n, 0);
  }

  /** The wrapped rest of a number, of which a wrapped product is taken. */
  lemma Remains(w: int, t: int, y: int, x: int, a: int)
    requires w - t * y == x
    ensures U32(w - S32(S32(t) * U32(y)) + a) == U32(x + a)
  {
    hide S32, U32;
    var k := Product(t, y);
    Wraps(x + a, -k);
  }

  /** What a distance of w between movement boundaries, covered in n strides, amounts to. */
  lemma UpFrom(incr: int, xs: nat, dest: Dword, last: Dword, w: int, n: int, x: int)
    requires incr != 0 && xs > 0 && (last - last % xs) - (dest - dest % xs) == w && Truncated(w, incr) == n
    requires 0 <= w && w + last % xs < 0x8000_0000 && w - n * (incr - xs) == x
    ensures SizeUp(incr, xs, dest, last) == U32(x + (last % xs - dest % xs))
  {
    hide S32, U32, Truncated;
    Fits(w);
    Fits(w + last % xs);
    Remains(w, n, incr - xs, x, last % xs - dest % xs);
  }

  lemma DownFrom(incr: int, xs: nat, dest: Dword, last: Dword, w: int, n: int, x: int)
    requires incr != 0 && xs > 0 && (dest - dest % xs) - (last - last % xs) == w && Truncated(w, incr) == n
    requires 0 <= w < 0x8000_0000 && w - n * (incr + xs) == x
    ensures SizeDown(incr, xs, dest, last) == U32(x + (dest % xs - last % xs))
  {
    hide S32, U32, Truncated;
    Fits(w);
    Remains(w, n, incr + xs, x, dest % xs - last % xs);
  }

  lemma Skipped(n: int, m: int, xs: int)
    ensures n * m - n * (m - xs) == n * xs && n * m - (0 - n) * (xs - m) == n * xs && n * (0 - m) == 0 - n * m
  {
  }

  lemma MidwayUp(v: Variant, b: Buffer, snap: Report, n: nat, r: nat)
    requires Started(v) && Midway(v, b, snap, n, r) && v.destIncr > 0 && snap.lastDest % v.xferSize == r
    ensures SizeUp(v.destIncr, v.xferSize, b.dest, snap.lastDest) == U32(n * v.xferSize + (r - b.dest % v.xferSize))
  {
    hide Truncated, S32, U32, IsPow2, SizeUp;
    var xs, m := v.xferSize, v.destIncr;
    Counted(n, m);
    Skipped(n, m, xs);
    UpFrom(m, xs, b.dest, snap.lastDest, n * m, n, n * xs);
  }

  lemma MidwayDown(v: Variant, b: Buffer, snap: Report, n: nat, r: nat)
    requires Started(v) && Midway(v, b, snap, n, r) && v.destIncr < 0 && snap.lastDest % v.xferSize == r
    ensures SizeDown(v.destIncr, v.xferSize, b.dest, snap.lastDest) == U32(n * v.xferSize + (b.dest % v.xferSize - r))
  {
    hide Truncated, S32, U32, IsPow2, SizeDown;
    var xs, m: nat := v.xferSize, 0 - v.destIncr;
    Counted(n, m);
    Skipped(n, m, xs);
    DownFrom(v.destIncr, xs, b.dest, snap.lastDest, n * m, 0 - n, n * xs);
  }

  /** 2^17 movements of one byte with a stride of 2^14: the distance is 2^31, and the report is wrong. */
  lemma OverflowExample(b: Buffer, snap: Report)
    requires b.dest == 0 && snap.lastDest == 0x8000_0000
    ensures Progress(Variant(1, 1, 0x4000, 1, 1), b, snap).dmaSize != 0x2_0000
  {
    hide Progress;
    Strided(Variant(1, 1, 0x4000, 1, 1), b, snap, 0x2_0000);
  }
}
