/** The channel engine of rwstat.c as a function of its state: what each
    channel operation (ch_step, ch_data, ch_pack, ch_map, ch_resize,
    ch_alpha, ch_reclock, ch_wind, ch_pattern, ch_left and
    rwstat_consume_event) does to the channel's fields and which messages
    it sends to the parent.

    ch_pack, ch_resize and ch_map call each other: a packing whose byte
    footprint no longer fits the window resizes it, a resize rebuilds the
    mapping, and a mapping re-applies the packing and steps.  The ranks
    below show that the chain ends: after the packing has fixed pack_sz the
    footprint check passes and no further resize happens. */
module Engine {
  import opened Types
  import opened Arith
  import Hilbert
  import opened Histogram
  import opened Patterns
  import opened Dispatch

  function Sq(b: nat): nat
  {
    b * b
  }

  /** pack_sizes[]: bytes of the window that make one sample. */
  function PackSize(p: Pack): (r: nat)
    ensures 1 <= r <= 4
  {
    match p
    case Tight => 4
    case TNoAlpha => 3
    case Intens => 1
    case HIntens => 1
  }

  /** pack_sz as ch_pack sets it: the tuple mapping takes two more bytes per
      sample for the coordinates. */
  function Footprint(p: Pack, m: Mapping): (r: nat)
    ensures r >= 1
  {
    PackSize(p) + (if m == Tuple then 2 else 0)
  }

  /** The coordinate LUT ch_map keeps: the Hilbert table for the curve
      mapping, none for the others. */
  function LutFor(m: Mapping, base: nat): (r: seq<int>)
    ensures m != Hilbert ==> r == []
    ensures m == Hilbert ==> |r| == 2 * (base * base) && forall j :: 0 <= j < |r| ==> 0 <= r[j] < 0x1_0000
  {
    if m == Hilbert then Hilbert.CurveTable(base) else []
  }

  // ---------------------------------------------------------------------
  // What the channel sends
  // ---------------------------------------------------------------------

  /** Where pack_bytes puts a sample: a cell of the grid, or for the tuple
      mapping the two raw coordinate bytes (the source scales them by float
      factors). */
  datatype Coord = At(x: int, y: int) | Scatter(sx: byte, sy: byte)

  /** RGBA(r, g, b, a). */
  datatype Pixel = Pixel(r: byte, g: byte, b: byte, a: byte)

  datatype Sample = Sample(at: Coord, px: Pixel)

  /** The messages of the channel, in the order it sends them. */
  datatype Message =
    | FrameStatus(frame: nat, pts: nat)     // framenumber = cnt_local, pts = cnt_total
    | StreamInfo(langid: seq<char>)         // '0' + pack, '0' + map, '0' + pack_sz
    | PatternMatch(id: nat, count: nat)     // a pattern's match count
    | Frame(samples: seq<Sample>)           // the pack_bytes writes of one step, then the signal
    | Clear                                 // every pixel set to opaque black

  // ---------------------------------------------------------------------
  // The channel's state
  // ---------------------------------------------------------------------

  /** struct rwstat_ch_priv, without the float scale factors and the output
      segment, plus the messages sent so far.  pats is the whole pattern
      array; the first n slots are in use. */
  datatype State = State(
    clock: Clock, pack: Pack, mapping: Mapping, amode: AlphaMode, dirty: bool,
    packSz: nat, base: nat, cmap: seq<int>,
    pats: seq<Pattern>, n: nat,
    cntTotal: nat, cntLocal: nat, bufOfs: nat,
    hgram: seq<int>, buf: seq<byte>, alpha: seq<byte>,
    sent: seq<Message>)

  /** What holds of the channel at every call: a histogram table, one alpha
      byte per cell, the patterns in use within the array and non-empty. */
  ghost predicate Core(s: State)
  {
    IsTable(s.hgram) && |s.alpha| == Sq(s.base) && s.n <= |s.pats| && Armed(s.pats[..s.n])
  }

  /** ... and the LUT matches the mapping and the side. */
  ghost predicate Shaped(s: State)
  {
    Core(s) && s.cmap == LutFor(s.mapping, s.base)
  }

  /** ... and the window holds exactly base^2 samples of the packing's
      footprint. */
  ghost predicate Valid(s: State)
  {
    Shaped(s) && s.packSz == Footprint(s.pack, s.mapping) && |s.buf| == Sq(s.base) * s.packSz
  }

  /** The modes and counters an operation on the buffers leaves alone. */
  ghost predicate SameModes(s: State, r: State)
  {
    r.clock == s.clock && r.pack == s.pack && r.mapping == s.mapping && r.amode == s.amode &&
    r.packSz == s.packSz && r.base == s.base && r.cmap == s.cmap && r.n == s.n && r.cntTotal == s.cntTotal
  }

  // ---------------------------------------------------------------------
  // pack_bytes
  // ---------------------------------------------------------------------

  lemma SampleBounds(ofs: nat, base: nat, sz: nat)
    requires ofs < Sq(base)
    ensures (ofs + 1) * sz <= Sq(base) * sz
  {
    MulLe(ofs + 1, Sq(base), sz);
  }

  /** The bytes of the window that make sample ofs. */
  function Chunk(s: State, ofs: nat): (w: seq<byte>)
    requires Valid(s) && ofs < Sq(s.base)
    ensures |w| == s.packSz
  {
    SampleBounds(ofs, s.base, s.packSz);
    MulDistrib(ofs, 1, s.packSz);
    s.buf[ofs * s.packSz .. (ofs + 1) * s.packSz]
  }

  /** What the switch on the mapping in pack_bytes reads for sample ofs
      lies inside the grid side, the LUT and the window. */
  lemma CoordFacts(s: State, ofs: nat)
    requires Valid(s) && ofs < Sq(s.base)
    ensures s.base > 0
    ensures s.mapping == Hilbert ==> 2 * ofs + 1 < |s.cmap|
    ensures s.mapping == Tuple ==>
      var i := ofs * s.packSz;
      i + 1 < |s.buf| && Chunk(s, ofs)[0] == s.buf[i] && Chunk(s, ofs)[1] == s.buf[i + 1]
  {
    SampleBounds(ofs, s.base, s.packSz);
    MulDistrib(ofs, 1, s.packSz);
  }

  /** The coordinate pack_bytes computes for sample ofs. */
  function CoordAt(s: State, ofs: nat): (c: Coord)
    requires Valid(s) && ofs < Sq(s.base)
    ensures s.mapping == Wrap ==> c.At? && 0 <= c.x < s.base && 0 <= c.y < s.base
    ensures s.mapping == Tuple ==> c.Scatter? && c.sx == Chunk(s, ofs)[0] && c.sy == Chunk(s, ofs)[1]
    ensures s.mapping == Hilbert ==> c.At? && c.x == s.cmap[2 * ofs] && c.y == s.cmap[2 * ofs + 1]
  {
    RowOf(ofs, s.base);
    match s.mapping
    case Wrap => At(ofs % s.base, ofs / s.base)
    case Tuple => var w := Chunk(s, ofs); Scatter(w[0], w[1])
    case Hilbert => At(s.cmap[2 * ofs], s.cmap[2 * ofs + 1])
  }

  /** The pixel pack_bytes computes for sample ofs; the tuple mapping skips
      the two coordinate bytes.  The histogram intensity is the bucket cast
      to uint8_t. */
  function PixelAt(s: State, ofs: nat): (p: Pixel)
    requires Valid(s) && ofs < Sq(s.base)
    ensures var w := Chunk(s, ofs); var l := if s.mapping == Tuple then 2 else 0;
      && (s.pack == Tight ==> [p.r, p.g, p.b, p.a] == w[l..l + 4])
      && (s.pack != Tight ==> p.a == s.alpha[ofs])
      && (s.pack == TNoAlpha ==> [p.r, p.g, p.b] == w[l..l + 3])
      && (s.pack == Intens ==> p.r == p.g == p.b == w[l])
      && (s.pack == HIntens ==> p.r == p.g == p.b && p.r as int == s.hgram[w[l]] % 256)
  {
    var w := Chunk(s, ofs);
    var l := if s.mapping == Tuple then 2 else 0;
    match s.pack
    case Tight => Pixel(w[l], w[l + 1], w[l + 2], w[l + 3])
    case TNoAlpha => Pixel(w[l], w[l + 1], w[l + 2], s.alpha[ofs])
    case Intens => Pixel(w[l], w[l], w[l], s.alpha[ofs])
    case HIntens => var hv := s.hgram[w[l]] % 256; Pixel(hv, hv, hv, s.alpha[ofs])
  }

  /** The loop of ch_step: pack_bytes for every sample offset of the window,
      in order. */
  function Samples(s: State): (r: seq<Sample>)
    requires Valid(s)
    ensures |r| == Sq(s.base)
  {
    seq(Sq(s.base), ofs requires 0 <= ofs < Sq(s.base) => Sample(CoordAt(s, ofs), PixelAt(s, ofs)))
  }

  /** The samples of offsets 0 to ofs are those of offsets below ofs and
      then the sample of ofs. */
  lemma SamplesStep(s: State, ofs: nat)
    requires Valid(s) && ofs < Sq(s.base)
    ensures Samples(s)[..ofs + 1] == Samples(s)[..ofs] + [Sample(CoordAt(s, ofs), PixelAt(s, ofs))]
  {
    Grow1(Samples(s), ofs);
  }

  /** The prefix of length k + 1 is the prefix of length k and then
      element k. */
  lemma Grow1<T>(a: seq<T>, k: nat)
    requires k < |a|
    ensures a[..k + 1] == a[..k] + [a[k]]
  {
    assert a[..k + 1] == a[..k] + [a[k]];
  }

  // ---------------------------------------------------------------------
  // update_entalpha
  // ---------------------------------------------------------------------

  lemma BlockBounds(j: nat, base: nat, sz: nat)
    requires j < base
    ensures (j + 1) * (base * sz) <= Sq(base) * sz
  {
    MulLe(j + 1, base, base * sz);
    assert base * (base * sz) == (base * base) * sz;
  }

  /** Block j of a window of base^2 samples of sz bytes: the bytes of
      samples j * base .. j * base + base - 1. */
  function EntBlock(buf: seq<byte>, base: nat, sz: nat, j: nat): (w: seq<byte>)
    requires |buf| == Sq(base) * sz && j < base
    ensures |w| == base * sz
  {
    BlockBounds(j, base, sz);
    MulDistrib(j, 1, base * sz);
    buf[j * (base * sz) .. (j + 1) * (base * sz)]
  }

  lemma RowOf(k: nat, base: nat)
    requires k < Sq(base)
    ensures k / base < base
  {
    DivBounds(k, base);
    if k / base >= base {
      MulLe(base, k / base, base);
    }
  }

  /** update_entalpha with block size base: every cell of block j gets the
      opacity the entropy of block j gives. */
  function EntAlpha(buf: seq<byte>, base: nat, sz: nat, ent: seq<byte> -> byte): (r: seq<byte>)
    requires |buf| == Sq(base) * sz
    ensures |r| == Sq(base)
  {
    seq<byte>(Sq(base), k requires 0 <= k < Sq(base) => RowOf(k, base); ent(EntBlock(buf, base, sz, k / base)))
  }

  // ---------------------------------------------------------------------
  // ch_step
  // ---------------------------------------------------------------------

  /** The three characters of the stream-info message: '0' plus the packing,
      the mapping and pack_sz, each kept to a char. */
  function Langid(s: State): (r: seq<char>)
    ensures |r| == 3
    ensures '0' <= r[0] <= '3' && r[0] as int - 48 == PackCode(s.pack)
    ensures '0' <= r[1] <= '2' && r[1] as int - 48 == MapCode(s.mapping)
    ensures s.packSz <= 9 ==> '0' <= r[2] <= '9' && r[2] as int - 48 == s.packSz
  {
    [(48 + PackCode(s.pack)) as char, (48 + MapCode(s.mapping)) as char, ((48 + s.packSz) % 256) as char]
  }

  /** The first part of ch_step: the frame status, then the modes if they
      changed since they were last announced. */
  function Announce(s: State): (r: State)
    ensures r == s.(sent := r.sent, dirty := false)
    ensures |r.sent| > |s.sent| && r.sent[..|s.sent| + 1] == s.sent + [FrameStatus(s.cntLocal, s.cntTotal)]
    ensures s.dirty ==> |r.sent| == |s.sent| + 2 && r.sent[|s.sent| + 1] == StreamInfo(Langid(s))
    ensures !s.dirty ==> |r.sent| == |s.sent| + 1
  {
    var s1 := s.(sent := s.sent + [FrameStatus(s.cntLocal, s.cntTotal)]);
    if s.dirty then s1.(sent := s1.sent + [StreamInfo(Langid(s))], dirty := false) else s1
  }

  /** The histogram stage of ch_step: under the sliding clock the window's
      bytes are counted on top of the table once more, and the
      histogram-intensity packing normalises it. */
  function Refresh(s: State): (r: State)
    requires Valid(s)
    ensures Valid(r) && r == s.(hgram := r.hgram)
  {
    if s.clock == Slide then
      AddAllCount(s.hgram, s.buf);
      var h := AddAll(s.hgram, s.buf);
      if s.pack == HIntens then s.(hgram := Normalized(h)) else s.(hgram := h)
    else if s.pack == HIntens then s.(hgram := Normalized(s.hgram))
    else s
  }

  function NoteMessages(notes: seq<Note>): (r: seq<Message>)
    ensures |r| == |notes|
  {
    seq(|notes|, k requires 0 <= k < |notes| => PatternMatch(notes[k].id, notes[k].count))
  }

  /** The alpha stage of ch_step: entropy blocks, patterns, or nothing for
      full opacity. */
  function AlphaStage(s: State, ent: seq<byte> -> byte): (r: State)
    requires Valid(s)
    ensures Valid(r) && r == s.(alpha := r.alpha, pats := r.pats, sent := r.sent)
    ensures |r.pats| == |s.pats| && s.sent <= r.sent
    ensures s.amode == Full ==> r == s
  {
    if s.amode == EntBase then s.(alpha := EntAlpha(s.buf, s.base, s.packSz, ent))
    else if s.amode == Ptn then
      var r := PtnAlpha(AsWritten, s.alpha, s.pats[..s.n], s.buf);
      var pats := r.pats + s.pats[s.n..];
      assert pats[..s.n] == r.pats;
      assert Armed(pats[..s.n]) by {
        forall j | 0 <= j < s.n
          ensures |pats[j].bytes| > 0
        {
          assert SameDef(r.pats[j], s.pats[..s.n][j]);
        }
      }
      s.(alpha := r.alpha, pats := pats, sent := s.sent + NoteMessages(r.notes))
    else s
  }

  /** The last part of ch_step: the samples of the window, the counter
      marked as reported, and the output cleared for the tuple mapping. */
  function Emit(s: State): (r: State)
    requires Valid(s)
    ensures r == s.(sent := r.sent, cntLocal := s.cntTotal)
    ensures |r.sent| >= |s.sent| + 1 && r.sent[..|s.sent| + 1] == s.sent + [Frame(Samples(s))]
    ensures s.mapping == Tuple <==> |r.sent| == |s.sent| + 2 && r.sent[|r.sent| - 1] == Clear
  {
    var s1 := s.(sent := s.sent + [Frame(Samples(s))], cntLocal := s.cntTotal);
    if s.mapping == Tuple then s1.(sent := s1.sent + [Clear]) else s1
  }

  /** ch_step: report the frame status, announce the modes if they changed,
      refresh the histogram, compute the alpha table, send the samples and
      mark the counter as reported; the tuple mapping then clears the
      output. */
  function StepSpec(s: State, ent: seq<byte> -> byte): (r: State)
    requires Valid(s)
    ensures Valid(r) && SameModes(s, r) && r.buf == s.buf && r.bufOfs == s.bufOfs
    ensures !r.dirty && r.cntLocal == s.cntTotal && |r.pats| == |s.pats| && s.sent <= r.sent
  {
    Emit(AlphaStage(Refresh(Announce(s)), ent))
  }

  /** What a step sends: first the frame status with the counters as they
      were, then the modes if they changed, and last the flush of the tuple
      mapping. */
  lemma StepReports(s: State, ent: seq<byte> -> byte)
    requires Valid(s)
    ensures var r := StepSpec(s, ent);
      && |r.sent| > |s.sent| && r.sent[..|s.sent| + 1] == s.sent + [FrameStatus(s.cntLocal, s.cntTotal)]
      && (s.dirty ==> |r.sent| > |s.sent| + 1 && r.sent[|s.sent| + 1] == StreamInfo(Langid(s)))
      && (s.mapping == Tuple ==> r.sent[|r.sent| - 1] == Clear)
  {
    var s1 := Announce(s);
    var s3 := AlphaStage(Refresh(s1), ent);
    assert s1.sent <= s3.sent;
  }

  /** The histogram a step leaves: the window counted on top of the table
      once more under the sliding clock, then normalised for the
      histogram-intensity packing; nothing else touches it. */
  lemma StepHistogram(s: State, ent: seq<byte> -> byte)
    requires Valid(s)
    ensures var h := if s.clock == Slide then AddAll(s.hgram, s.buf) else s.hgram;
      StepSpec(s, ent).hgram == if s.pack == HIntens then Normalized(h) else h
  {
    var s1 := Announce(s);
    assert Refresh(s1).hgram == Refresh(s).hgram;
  }

  /** Under full opacity a step leaves the alpha table alone. */
  lemma StepKeepsAlpha(s: State, ent: seq<byte> -> byte)
    requires Valid(s)
    ensures s.amode == Full ==> StepSpec(s, ent).alpha == s.alpha
  {
  }

  // ---------------------------------------------------------------------
  // ch_pack, ch_resize, ch_map
  // ---------------------------------------------------------------------

  /** Every byte of the window is zero. */
  ghost predicate Zeroed(buf: seq<byte>)
  {
    forall k :: 0 <= k < |buf| ==> buf[k] == 0
  }

  /** Every cell of the alpha table is fully opaque. */
  ghost predicate Opaque(alpha: seq<byte>)
  {
    forall k :: 0 <= k < |alpha| ==> alpha[k] == 255
  }

  function PackRank(s: State, p: Pack): nat
  {
    if Sq(s.base) * Footprint(p, s.mapping) == |s.buf| then 0 else 3
  }

  function ResizeRank(s: State): nat
  {
    if s.packSz == Footprint(s.pack, s.mapping) then 2 else 6
  }

  function MapRank(s: State, m: Mapping): nat
  {
    if Sq(s.base) * Footprint(s.pack, m) == |s.buf| then 1 else 5
  }

  function FitRank(s: State): nat
  {
    if Sq(s.base) * s.packSz == |s.buf| then 0 else 3
  }

  /** ch_pack: set the packing and its footprint, resize the window if the
      footprint no longer fits it, and mark the modes as changed. */
  function PackSpec(s: State, p: Pack, ent: seq<byte> -> byte): (r: State)
    requires Shaped(s)
    ensures Valid(r) && r.dirty
    ensures r.pack == p && r.packSz == Footprint(p, s.mapping)
    ensures r.mapping == s.mapping && r.base == s.base && r.clock == s.clock && r.amode == s.amode
    ensures r.n == s.n && |r.pats| == |s.pats| && r.cntTotal == s.cntTotal && s.sent <= r.sent
    ensures |s.buf| == Sq(s.base) * Footprint(p, s.mapping) ==> r.buf == s.buf && r.alpha == s.alpha && r.sent == s.sent
    ensures |s.buf| != Sq(s.base) * Footprint(p, s.mapping) ==> Zeroed(r.buf)
    ensures s.amode == Full && Opaque(s.alpha) ==> Opaque(r.alpha)
    decreases PackRank(s, p), 1
  {
    Refitted(s.(pack := p, packSz := Footprint(p, s.mapping)), ent)
  }

  /** The rest of ch_pack once the footprint is set: a window that no
      longer holds base^2 samples of it is resized to the same side, and
      the modes are marked as changed. */
  function Refitted(s: State, ent: seq<byte> -> byte): (r: State)
    requires Shaped(s) && s.packSz == Footprint(s.pack, s.mapping)
    decreases FitRank(s), 0
  {
    var s2 := if |s.buf| != Sq(s.base) * s.packSz then ResizeSpec(s, s.base, ent) else s;
    s2.(dirty := true)
  }

  /** The fresh buffers of ch_resize: base^2 samples of the current
      pack_sz, all zero, and an opaque alpha table. */
  function Blank(s: State, b: nat): (r: State)
    requires IsTable(s.hgram) && s.n <= |s.pats| && Armed(s.pats[..s.n])
    ensures Core(r) && r == s.(buf := r.buf, alpha := r.alpha, base := b)
    ensures |r.buf| == Sq(b) * s.packSz && Zeroed(r.buf) && Opaque(r.alpha)
    ensures MapRank(r, r.mapping) < ResizeRank(s)
  {
    s.(buf := seq(Sq(b) * s.packSz, _ => 0), alpha := seq(Sq(b), _ => 255), base := b)
  }

  /** ch_resize: a zeroed window of base^2 samples of the current pack_sz,
      an opaque alpha table, then the mapping rebuilt (which steps). */
  function ResizeSpec(s: State, b: nat, ent: seq<byte> -> byte): (r: State)
    requires IsTable(s.hgram) && s.n <= |s.pats| && Armed(s.pats[..s.n])
    ensures Valid(r) && !r.dirty
    ensures r.base == b && r.pack == s.pack && r.mapping == s.mapping && r.clock == s.clock && r.amode == s.amode
    ensures r.n == s.n && |r.pats| == |s.pats| && r.cntTotal == s.cntTotal && s.sent <= r.sent
    ensures Zeroed(r.buf)
    ensures s.amode == Full ==> Opaque(r.alpha)
    decreases ResizeRank(s), 0
  {
    var s1 := Blank(s, b);
    MapSpec(s1, s1.mapping, ent)
  }

  /** The first part of ch_map: the mapping and its LUT. */
  function Remap(s: State, m: Mapping): (r: State)
    requires Core(s)
    ensures Shaped(r) && r == s.(mapping := m, cmap := LutFor(m, s.base))
    ensures PackRank(r, r.pack) < MapRank(s, m)
  {
    s.(mapping := m, cmap := LutFor(m, s.base))
  }

  /** The middle of ch_map: the output cleared for the tuple mapping, the
      modes marked as changed. */
  function Flush(s: State): (r: State)
    requires Valid(s)
    ensures Valid(r) && r.dirty && r == s.(sent := r.sent, dirty := true)
    ensures r.sent == s.sent + (if s.mapping == Tuple then [Clear] else [])
  {
    if s.mapping == Tuple then s.(sent := s.sent + [Clear], dirty := true) else s.(dirty := true)
  }

  /** The end of ch_map: flush, mark the modes as changed and step; the step
      announces the modes. */
  function Settle(s: State, ent: seq<byte> -> byte): (r: State)
    requires Valid(s)
    ensures Valid(r) && !r.dirty && SameModes(s, r) && r.buf == s.buf
    ensures |r.pats| == |s.pats| && s.sent <= r.sent
    ensures StreamInfo(Langid(r)) in r.sent[|s.sent|..]
    ensures s.amode == Full ==> r.alpha == s.alpha
  {
    var s1 := Flush(s);
    var r := StepSpec(s1, ent);
    StepReports(s1, ent);
    StepKeepsAlpha(s1, ent);
    assert Langid(s1) == Langid(r);
    assert r.sent[|s.sent|..][|s1.sent| - |s.sent| + 1] == r.sent[|s1.sent| + 1];
    r
  }

  /** ch_map: set the mapping and its LUT, re-apply the packing, clear the
      output for the tuple mapping, mark the modes as changed and step.  The
      step announces the new modes, so they end up reported. */
  function MapSpec(s: State, m: Mapping, ent: seq<byte> -> byte): (r: State)
    requires Core(s)
    ensures Valid(r) && !r.dirty
    ensures r.mapping == m && r.pack == s.pack && r.base == s.base && r.clock == s.clock && r.amode == s.amode
    ensures r.n == s.n && |r.pats| == |s.pats| && r.cntTotal == s.cntTotal && s.sent <= r.sent
    ensures StreamInfo(Langid(r)) in r.sent[|s.sent|..]
    ensures |s.buf| == Sq(s.base) * Footprint(s.pack, m) ==> r.buf == s.buf
    ensures s.amode == Full && Opaque(s.alpha) ==> Opaque(r.alpha)
    ensures Zeroed(s.buf) ==> Zeroed(r.buf)
    decreases MapRank(s, m), 0
  {
    var s1 := Remap(s, m);
    var s2 := PackSpec(s1, s1.pack, ent);
    var r := Settle(s2, ent);
    LaterIn(s.sent, s2.sent, r.sent, StreamInfo(Langid(r)));
    r
  }

  /** A message sent after b was sent was sent after a, when a came before b. */
  lemma LaterIn(a: seq<Message>, b: seq<Message>, c: seq<Message>, msg: Message)
    requires a <= b <= c && msg in c[|b|..]
    ensures msg in c[|a|..]
  {
    assert c[|a|..] == b[|a|..] + c[|b|..];
  }

  // ---------------------------------------------------------------------
  // ch_alpha, ch_reclock, ch_wind, ch_left, ch_tick
  // ---------------------------------------------------------------------

  /** 2^64: the modulus of a size_t. */
  const U64: int := 0x1_0000_0000_0000_0000

  /** ch_alpha: set the alpha mode; switching to full opacity makes the whole
      table opaque, the other modes leave it until the next step. */
  function AlphaSpec(s: State, a: AlphaMode): (r: State)
    requires Valid(s)
    ensures Valid(r) && r == s.(amode := a, alpha := r.alpha)
    ensures a == Full ==> Opaque(r.alpha)
    ensures a != Full ==> r.alpha == s.alpha
  {
    if a == Full then s.(amode := a, alpha := seq(Sq(s.base), _ => 255)) else s.(amode := a)
  }

  /** ch_reclock: only the clock changes; no step is forced. */
  function ReclockSpec(s: State, c: Clock): (r: State)
    requires Valid(s)
    ensures Valid(r) && r.clock == c && r.(clock := s.clock) == s
  {
    s.(clock := c)
  }

  /** ch_wind: the stream position, an off_t stored in a size_t. */
  function WindSpec(s: State, ofs: int): (r: State)
    requires Valid(s)
    ensures Valid(r) && 0 <= r.cntTotal < U64 && r.(cntTotal := s.cntTotal) == s
    ensures 0 <= ofs < U64 ==> r.cntTotal == ofs
  {
    DivModUnique(if 0 <= ofs < U64 then ofs else 0, U64, 0, if 0 <= ofs < U64 then ofs else 0);
    s.(cntTotal := ofs % U64)
  }

  /** ch_left: the room left in the window, as a size_t. */
  function LeftSpec(s: State): (r: nat)
    ensures r < U64
    ensures s.bufOfs <= |s.buf| < U64 ==> r == |s.buf| - s.bufOfs
  {
    DivModUnique(if s.bufOfs <= |s.buf| < U64 then |s.buf| - s.bufOfs else 0, U64, 0,
      if s.bufOfs <= |s.buf| < U64 then |s.buf| - s.bufOfs else 0);
    (|s.buf| - s.bufOfs) % U64
  }

  // ---------------------------------------------------------------------
  // ch_data
  // ---------------------------------------------------------------------

  /** What a write of len bytes needs to stay inside the window: under the
      block clock the offset lies inside the window; under the sliding clock
      a write of a whole window or more starts at offset zero. */
  ghost predicate Fits(s: State, len: nat)
  {
    if s.clock == Slide then len >= |s.buf| ==> s.bufOfs == 0 else s.bufOfs <= |s.buf|
  }

  /** The number of bytes ch_data takes from a write of len bytes: under the
      sliding clock at most a window, under the block clock at most the
      room left. */
  function Taken(s: State, len: nat): (t: nat)
    requires Fits(s, len)
    ensures t <= len
    ensures s.clock == Slide ==> t <= |s.buf|
    ensures s.clock == Block ==> s.bufOfs + t <= |s.buf|
  {
    if s.clock == Slide then (if len < |s.buf| then len else |s.buf|)
    else if len < |s.buf| - s.bufOfs then len else |s.buf| - s.bufOfs
  }

  /** The first t bytes of a write: the ones ch_data takes. */
  function Head(chunk: seq<byte>, t: nat): (b: seq<byte>)
    requires t <= |chunk|
    ensures |b| == t
    ensures t == |chunk| ==> b == chunk
  {
    if t == |chunk| then chunk else chunk[..t]
  }

  /** The window after the copy loop has stored bytes b from offset ofs,
      one at a time: exactly the |b| bytes from ofs are replaced. */
  function Store(buf: seq<byte>, ofs: nat, b: seq<byte>): (r: seq<byte>)
    requires ofs + |b| <= |buf|
    ensures r == buf[..ofs] + b + buf[ofs + |b|..]
  {
    if b == [] then buf
    else
      var b' := b[..|b| - 1];
      assert b == b' + [b[|b| - 1]];
      Store(buf, ofs, b')[ofs + |b| - 1 := b[|b| - 1]]
  }

  /** The memmove of a short sliding write of t bytes: the window moves t
      bytes towards its start; the last t bytes stay until they are
      overwritten. */
  function Slid(buf: seq<byte>, t: nat): (r: seq<byte>)
    requires t <= |buf|
    ensures |r| == |buf|
    ensures r[..|buf| - t] == buf[t..]
    ensures r[|buf| - t..] == buf[|buf| - t..]
  {
    buf[t..] + buf[|buf| - t..]
  }

  /** The window after the copy loop of ch_data has taken the t first bytes
      of a write; a short sliding write first moves the window t bytes
      towards its start. */
  function Moved(s: State, chunk: seq<byte>): (r: seq<byte>)
    requires Fits(s, |chunk|)
    ensures |r| == |s.buf|
  {
    var t := Taken(s, |chunk|);
    if s.clock == Slide && |chunk| < |s.buf| then Store(Slid(s.buf, t), |s.buf| - t, Head(chunk, t))
    else Store(s.buf, s.bufOfs, Head(chunk, t))
  }

  /** The offset after the copy loop. */
  function MovedOfs(s: State, chunk: seq<byte>): (r: nat)
    requires Fits(s, |chunk|)
    ensures r <= |s.buf|
  {
    if s.clock == Slide && |chunk| < |s.buf| then |s.buf| else s.bufOfs + Taken(s, |chunk|)
  }

  /** The start of ch_data for a write of len bytes: a short sliding write
      moves the window towards its start and sets the offset to the room
      it made at the end. */
  function Admitted(s: State, len: nat): (r: State)
    requires Fits(s, len)
    ensures r == s.(buf := r.buf, bufOfs := r.bufOfs) && |r.buf| == |s.buf|
    ensures r.bufOfs + Taken(s, len) <= |r.buf|
  {
    if s.clock == Slide && len < |s.buf| then
      s.(buf := Slid(s.buf, len), bufOfs := |s.buf| - len)
    else s
  }

  /** The copy loop of ch_data on the first t bytes of a write: each is
      counted in the histogram and stored at the running offset. */
  function Absorbed(s: State, chunk: seq<byte>, t: nat): (r: State)
    requires IsTable(s.hgram) && t <= |chunk| && s.bufOfs + t <= |s.buf|
    ensures r == s.(hgram := r.hgram, buf := r.buf, bufOfs := s.bufOfs + t)
  {
    s.(hgram := AddAll(s.hgram, chunk[..t]), buf := Store(s.buf, s.bufOfs, chunk[..t]), bufOfs := s.bufOfs + t)
  }

  /** ch_data without the step: every taken byte is counted in the
      histogram and stored, and the offset ends past the last one. */
  function Ingest(s: State, chunk: seq<byte>): (r: State)
    requires Valid(s) && Fits(s, |chunk|)
    ensures Valid(r) && r == s.(hgram := r.hgram, buf := r.buf, bufOfs := r.bufOfs)
    ensures r.buf == Moved(s, chunk) && r.bufOfs == MovedOfs(s, chunk)
    ensures r.hgram == AddAll(s.hgram, Head(chunk, Taken(s, |chunk|)))
  {
    var t := Taken(s, |chunk|);
    assert Head(chunk, t) == chunk[..t];
    AddAllCount(s.hgram, chunk[..t]);
    Absorbed(Admitted(s, |chunk|), chunk, t)
  }

  /** What ch_data leaves: the channel, the byte count it returns and the
      step flag it stores. */
  datatype Ingested = Ingested(st: State, taken: nat, stepped: bool)

  /** ch_data: ingest, and step once the window is full. */
  function DataSpec(s: State, chunk: seq<byte>, ent: seq<byte> -> byte): (r: Ingested)
    requires Valid(s) && Fits(s, |chunk|)
    ensures Valid(r.st) && SameModes(s, r.st) && r.taken == Taken(s, |chunk|)
    ensures r.stepped <==> s.clock == Slide || s.bufOfs + r.taken == |s.buf|
    ensures r.stepped ==> r.st.bufOfs == 0 && !r.st.dirty && r.st.cntLocal == s.cntTotal
    ensures !r.stepped ==> r.st.bufOfs == s.bufOfs + r.taken < |r.st.buf| && r.st.sent == s.sent
    ensures r.st.buf == Ingest(s, chunk).buf && |r.st.pats| == |s.pats|
    ensures r.stepped ==> r.st == StepSpec(Ingest(s, chunk).(bufOfs := 0), ent)
    ensures !r.stepped ==> r.st == Ingest(s, chunk)
  {
    var s1 := Ingest(s, chunk);
    var t := Taken(s, |chunk|);
    if s1.bufOfs == |s1.buf| then Ingested(StepSpec(s1.(bufOfs := 0), ent), t, true)
    else Ingested(s1, t, false)
  }

  /** The copy loop under the block clock: the taken bytes land at the
      offset and the rest of the window stays. */
  lemma MovedBlock(s: State, chunk: seq<byte>)
    requires s.clock == Block && s.bufOfs <= |s.buf|
    ensures var t := Taken(s, |chunk|);
      Moved(s, chunk) == s.buf[..s.bufOfs] + chunk[..t] + s.buf[s.bufOfs + t..]
  {
    var t := Taken(s, |chunk|);
    assert Head(chunk, t) == chunk[..t];
  }

  /** Block-mode ingest: a write fills the window from the offset with as
      many bytes as fit, and steps exactly when the window becomes full. */
  lemma DataBlock(s: State, chunk: seq<byte>, ent: seq<byte> -> byte)
    requires Valid(s) && s.clock == Block && s.bufOfs <= |s.buf|
    ensures var r := DataSpec(s, chunk, ent); var t := r.taken;
      && t == (if |chunk| < |s.buf| - s.bufOfs then |chunk| else |s.buf| - s.bufOfs)
      && r.st.buf[..s.bufOfs] == s.buf[..s.bufOfs]
      && r.st.buf[s.bufOfs..s.bufOfs + t] == chunk[..t]
      && r.st.buf[s.bufOfs + t..] == s.buf[s.bufOfs + t..]
      && (r.stepped <==> |chunk| >= |s.buf| - s.bufOfs)
  {
    MovedBlock(s, chunk);
  }

  /** A block-mode write that does not fill the window counts its bytes on
      top of the histogram and sends nothing. */
  lemma DataBlockPartial(s: State, chunk: seq<byte>, ent: seq<byte> -> byte)
    requires Valid(s) && s.clock == Block && s.bufOfs + |chunk| < |s.buf|
    ensures var r := DataSpec(s, chunk, ent);
      && !r.stepped && r.taken == |chunk| && r.st.bufOfs == s.bufOfs + |chunk| && r.st.sent == s.sent
      && r.st.hgram == AddAll(s.hgram, chunk)
  {
    assert Head(chunk, |chunk|) == chunk;
  }

  /** The window after a sliding write of t bytes is the old window
      followed by those bytes, less its first t. */
  lemma MovedSlide(s: State, chunk: seq<byte>)
    requires s.clock == Slide && Fits(s, |chunk|)
    ensures var t := Taken(s, |chunk|); Moved(s, chunk) == (s.buf + chunk[..t])[t..]
  {
    var t := Taken(s, |chunk|);
    var b := Head(chunk, t);
    assert b == chunk[..t];
    if |chunk| < |s.buf| {
      var slid := Slid(s.buf, t);
      assert Moved(s, chunk) == Store(slid, |s.buf| - t, b);
      assert slid[..|s.buf| - t] == s.buf[t..];
      assert slid[|s.buf| - t + |b|..] == [];
      assert (s.buf + b)[t..] == s.buf[t..] + b;
    } else {
      assert (s.buf + b)[t..] == b;
    }
  }

  /** Slide-mode ingest: a write slides the window by the bytes it takes
      (at most a window), and always steps. */
  lemma DataSlide(s: State, chunk: seq<byte>, ent: seq<byte> -> byte)
    requires Valid(s) && s.clock == Slide && (|chunk| >= |s.buf| ==> s.bufOfs == 0)
    ensures var r := DataSpec(s, chunk, ent); var t := r.taken;
      && t == (if |chunk| < |s.buf| then |chunk| else |s.buf|)
      && r.st.buf == (s.buf + chunk[..t])[t..]
      && r.stepped && r.st.bufOfs == 0
  {
    MovedSlide(s, chunk);
  }

  /** Under the sliding clock the bytes of a short write are counted twice
      when the window is stepped: once on arrival and once more when
      rebuild_hgram counts the whole window on top (AddAllTwice gives the
      bucket by bucket form). */
  lemma SlideCountsTwice(s: State, chunk: seq<byte>, ent: seq<byte> -> byte)
    requires Valid(s) && s.clock == Slide && s.pack != HIntens && |chunk| < |s.buf|
    ensures var r := DataSpec(s, chunk, ent);
      r.st.hgram == AddAll(AddAll(s.hgram, chunk), r.st.buf)
  {
    assert Head(chunk, |chunk|) == chunk;
    StepHistogram(Ingest(s, chunk).(bufOfs := 0), ent);
  }

  /** Writing exactly the room ch_left reports fills the window and steps. */
  lemma LeftFills(s: State, chunk: seq<byte>, ent: seq<byte> -> byte)
    requires Valid(s) && s.clock == Block && s.bufOfs <= |s.buf| < U64
    requires |chunk| == LeftSpec(s)
    ensures DataSpec(s, chunk, ent).stepped && DataSpec(s, chunk, ent).taken == |chunk|
  {
  }
}
