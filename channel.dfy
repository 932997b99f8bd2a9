/** struct rwstat_ch_priv and the channel functions rwstat.c installs in a
    struct rwstat_ch, working in place on the channel's buffers.  Every
    method is proved to leave the channel in the state the corresponding
    function of Engine or Control gives, so the properties proved there
    hold of this code. */
module Channels {
  import opened Types
  import opened Arith
  import Hilbert
  import opened Histogram
  import opened Patterns
  import opened Dispatch
  import opened Engine
  import opened Control

  // ---------------------------------------------------------------------
  // Loops on plain arrays
  // ---------------------------------------------------------------------

  /** memset of a whole buffer. */
  method Fill<T>(a: array<T>, v: T)
    modifies a
    ensures a[..] == seq(a.Length, _ => v)
  {
    var k := 0;
    while k < a.Length
      invariant 0 <= k <= a.Length
      invariant forall q :: 0 <= q < k ==> a[q] == v
    {
      a[k] := v;
      k := k + 1;
    }
  }

  /** A new buffer of len copies of v: malloc then memset. */
  method Filled<T(0)>(len: nat, v: T) returns (a: array<T>)
    ensures fresh(a) && a[..] == seq(len, _ => v)
  {
    a := new T[len];
    Fill(a, v);
  }

  /** The bytes update_entalpha hands to the entropy estimate for block j
      are the block Engine.EntBlock names. */
  lemma BlockSlice(buf: seq<byte>, base: nat, sz: nat, j: nat)
    requires |buf| == Sq(base) * sz && j < base
    ensures (j * base) * sz + base * sz <= |buf|
    ensures EntBlock(buf, base, sz, j) == buf[(j * base) * sz .. (j * base) * sz + base * sz]
  {
    BlockBounds(j, base, sz);
    MulAssoc(j, base, sz);
    MulDistrib(j, 1, base * sz);
  }

  /** Cell c of block j is cell j * base + c of the table, in row j. */
  lemma BlockCell(base: nat, j: nat, c: nat)
    requires j < base && c < base
    ensures j * base + c < Sq(base) && (j * base + c) / base == j
  {
    MulLe(j, base - 1, base);
    MulDistrib(base, 1, base);
    DivModUnique(j * base + c, base, j, c);
  }

  /** Cell q of block j takes the entropy estimate of the block's bytes. */
  lemma EntCell(buf: seq<byte>, base: nat, sz: nat, ent: seq<byte> -> byte, j: nat, q: nat)
    requires |buf| == Sq(base) * sz && j < base && j * base <= q < j * base + base
    ensures (j * base) * sz + base * sz <= |buf| && q < Sq(base)
    ensures EntAlpha(buf, base, sz, ent)[q] == ent(buf[(j * base) * sz .. (j * base) * sz + base * sz])
  {
    BlockCell(base, j, q - j * base);
    BlockSlice(buf, base, sz, j);
  }

  /** memset(a + from, v, len). */
  method Memset(a: array<byte>, from: nat, len: nat, v: byte)
    requires from + len <= a.Length
    modifies a
    ensures forall q :: 0 <= q < a.Length ==> a[q] == if from <= q < from + len then v else old(a[q])
  {
    var k := from;
    while k < from + len
      invariant from <= k <= from + len
      invariant forall q :: 0 <= q < a.Length ==> a[q] == if from <= q < k then v else old(a[q])
    {
      a[k] := v;
      k := k + 1;
    }
  }

  /** update_entalpha(chp, base): for each block of base samples, the
      entropy estimate of its bytes is set on its base cells. */
  method UpdateEntAlpha(alpha: array<byte>, buf: array<byte>, base: nat, sz: nat, ent: seq<byte> -> byte)
    requires alpha.Length == Sq(base) && buf.Length == Sq(base) * sz && alpha != buf
    modifies alpha
    ensures alpha[..] == EntAlpha(buf[..], base, sz, ent)
  {
    ghost var cells := EntAlpha(buf[..], base, sz, ent);
    var bsqr := base * base;
    var i := 0;
    ghost var j := 0;
    while i < bsqr
      invariant i == j * base && i <= bsqr
      invariant forall q :: 0 <= q < i ==> alpha[q] == cells[q]
      decreases bsqr - i
    {
      MulCancelLt(j, base, base);
      BlockSlice(buf[..], base, sz, j);
      MulDistrib(j, 1, base);
      MulLe(j + 1, base, base);
      var v := ent(buf[i * sz .. i * sz + base * sz]);
      Memset(alpha, i, base, v);
      forall q | i <= q < i + base
        ensures alpha[q] == cells[q]
      {
        EntCell(buf[..], base, sz, ent, j, q);
      }
      i := i + base;
      j := j + 1;
    }
  }

  /** Entry i of the LUT: the coordinates of index i, truncated to
      uint16_t. */
  function LutPair(base: nat, i: nat): Hilbert.Point
  {
    var p := Hilbert.Curve(Hilbert.Levels(base), i);
    Hilbert.Point(Hilbert.Trunc16(p.x), Hilbert.Trunc16(p.y))
  }

  /** A flat table holding entry i at 2i and 2i + 1, for every index of
      the curve, is the LUT of the Hilbert mapping. */
  lemma LutPairs(t: seq<int>, base: nat)
    requires |t| == 2 * (base * base)
    requires forall i :: 0 <= i < base * base ==> Hilbert.Entry(t, i) == LutPair(base, i)
    ensures t == LutFor(Hilbert, base)
  {
    var table := LutFor(Hilbert, base);
    forall j | 0 <= j < |t|
      ensures t[j] == table[j]
    {
      var i, b := j / 2, j % 2;
      Hilbert.CellOf(base, j, i, b);
      assert Hilbert.Entry(t, i) == LutPair(base, i);
    }
  }

  /** The LUT loop of ch_map: entry 2i and 2i+1 take the coordinates
      hilbert_d2xy gives for index i, stored as uint16_t. */
  method BuildLut(base: nat) returns (t: array<int>)
    ensures fresh(t) && t[..] == LutFor(Hilbert, base)
  {
    var hsz := base * base;
    t := new int[2 * hsz];
    var i := 0;
    while i < hsz
      invariant 0 <= i <= hsz
      invariant forall k :: 0 <= k < i ==> Hilbert.Point(t[2 * k], t[2 * k + 1]) == LutPair(base, k)
    {
      PutEntry(t, base, i);
      i := i + 1;
    }
    LutPairs(t[..], base);
  }

  /** One round of the LUT loop: entry i takes the coordinates of index
      i, and nothing else in the table changes. */
  method PutEntry(t: array<int>, base: nat, i: nat)
    requires 2 * i + 1 < t.Length
    modifies t
    ensures Hilbert.Point(t[2 * i], t[2 * i + 1]) == LutPair(base, i)
    ensures forall j :: 0 <= j < t.Length && j != 2 * i && j != 2 * i + 1 ==> t[j] == old(t[j])
  {
    var x, y := Hilbert.D2xy(base, i);
    t[i * 2 + 0] := Hilbert.Trunc16(x);
    t[i * 2 + 1] := Hilbert.Trunc16(y);
  }

  /** The realloc of ch_pattern: the array grows by eight slots, which the
      memset from slot n zeroes; the slots before are kept. */
  method Grow(pats: array<Pattern>, n: nat) returns (grown: array<Pattern>)
    requires n == pats.Length
    ensures fresh(grown) && grown[..] == pats[..] + seq(8, _ => Vacant)
  {
    grown := new Pattern[pats.Length + 8];
    var k := 0;
    while k < pats.Length
      invariant 0 <= k <= pats.Length
      invariant forall q :: 0 <= q < k ==> grown[q] == pats[q]
    {
      grown[k] := pats[k];
      k := k + 1;
    }
    k := n;
    while k < n + 8
      invariant n <= k <= n + 8
      invariant forall q :: 0 <= q < n ==> grown[q] == pats[q]
      invariant forall q :: n <= q < k ==> grown[q] == Vacant
    {
      grown[k] := Vacant;
      k := k + 1;
    }
  }

  /** The memmove of a short sliding write: the window moves t bytes
      towards its start. */
  method Shift(buf: array<byte>, t: nat)
    requires t <= buf.Length
    modifies buf
    ensures buf[..] == Slid(old(buf[..]), t)
  {
    var k := 0;
    while k < buf.Length - t
      invariant 0 <= k <= buf.Length - t
      invariant forall q :: 0 <= q < k ==> buf[q] == old(buf[q + t])
      invariant forall q :: k <= q < buf.Length ==> buf[q] == old(buf[q])
    {
      buf[k] := buf[k + t];
      k := k + 1;
    }
  }

  /** The copy loop of ch_data: each of the first ntw bytes of the write is
      counted in the histogram and stored at the running offset. */
  method CopyIn(hgram: array<int>, buf: array<byte>, ofs: nat, chunk: seq<byte>, ntw: nat) returns (ofs': nat)
    requires hgram.Length == 256 && ntw <= |chunk| && ofs + ntw <= buf.Length
    modifies hgram, buf
    ensures hgram[..] == AddAll(old(hgram[..]), chunk[..ntw])
    ensures buf[..] == Store(old(buf[..]), ofs, chunk[..ntw]) && ofs' == ofs + ntw
  {
    ofs' := ofs;
    var i := 0;
    while i < ntw
      invariant 0 <= i <= ntw && ofs' == ofs + i
      invariant hgram[..] == AddAll(old(hgram[..]), chunk[..i])
      invariant buf[..] == Store(old(buf[..]), ofs, chunk[..i])
    {
      assert chunk[..i + 1][..i] == chunk[..i];
      hgram[chunk[i]] := (hgram[chunk[i]] + 1) % U32;
      buf[ofs'] := chunk[i];
      ofs' := ofs' + 1;
      i := i + 1;
    }
  }

  // ---------------------------------------------------------------------
  // The channel
  // ---------------------------------------------------------------------

  /** struct rwstat_ch_priv, without the float scale factors and the output
      segment.  cmap holds the LUT (empty when the mapping needs none), pats
      the pattern array of which the first n slots are in use, and sent the
      messages the channel has sent to its parent so far. */
  class Channel {
    var clock: Clock
    var pack: Pack
    var mapping: Mapping
    var amode: AlphaMode
    var dirty: bool
    var packSz: nat
    var base: nat
    var cmap: array<int>
    var pats: array<Pattern>
    var n: nat
    var cntTotal: nat
    var cntLocal: nat
    var bufOfs: nat
    const hgram: array<int>
    var buf: array<byte>
    var alpha: array<byte>
    ghost var sent: seq<Message>
    /** The channel and the buffers it owns. */
    ghost var Repr: set<object>
    /** The per-block opacity update_entalpha derives from shent. */
    const ent: seq<byte> -> byte

    /** The channel's fields as an Engine state. */
    ghost function Abs(): State
      reads this, cmap, pats, hgram, buf, alpha
    {
      State(clock, pack, mapping, amode, dirty, packSz, base, cmap[..], pats[..], n,
        cntTotal, cntLocal, bufOfs, hgram[..], buf[..], alpha[..], sent)
    }

    /** The histogram is a 256-entry table and no two buffers share
        storage. */
    ghost predicate Wf()
      reads this
    {
      {this, hgram, cmap, pats, buf, alpha} <= Repr && hgram.Length == 256 && buf != alpha && hgram != cmap
    }

    ghost predicate Valid()
      reads this, cmap, pats, hgram, buf, alpha
    {
      Wf() && Engine.Valid(Abs())
    }

    /** rwstat_addch: a zeroed channel with the given modes and
        entropy-based opacity, resized to the segment width w, then marked
        so that the next step announces its modes. */
    constructor (clock: Clock, m: Mapping, p: Pack, w: nat, entropy: seq<byte> -> byte)
      ensures Abs() == InitSpec(clock, m, p, w, entropy)
      ensures Valid() && ent == entropy
    {
      var h := new int[256];
      Fill(h, 0);
      this.clock := clock;
      mapping := m;
      pack := p;
      amode := EntBase;
      dirty := false;
      packSz := 0;
      base := 0;
      cmap := new int[0];
      pats := new Pattern[0];
      n := 0;
      cntTotal := 0;
      cntLocal := 0;
      bufOfs := 0;
      hgram := h;
      buf := new byte[0];
      alpha := new byte[0];
      sent := [];
      ent := entropy;
      Repr := {this, h, cmap, pats, buf, alpha};
      new;
      assert Abs() == Fresh(clock, m, p);
      Resize(w);
      MarkDirty();
    }

    // -------------------------------------------------------------------
    // ch_step
    // -------------------------------------------------------------------

    /** ch_step. */
    method Step()
      requires Valid()
      modifies Repr
      ensures Abs() == StepSpec(old(Abs()), ent)
      ensures Valid() && Repr == old(Repr)
    {
      Report();
      RefreshHistogram();
      UpdateAlpha();
      Publish();
    }

    /** The frame status, then the stream info if the modes changed. */
    method Report()
      requires Valid()
      modifies Repr
      ensures Abs() == Announce(old(Abs()))
      ensures Valid() && Repr == old(Repr)
    {
      sent := sent + [FrameStatus(cntLocal, cntTotal)];
      if dirty {
        var langid := [(48 + PackCode(pack)) as char, (48 + MapCode(mapping)) as char, ((48 + packSz) % 256) as char];
        sent := sent + [StreamInfo(langid)];
        dirty := false;
      }
    }

    /** rebuild_hgram under the sliding clock, hnorm for the
        histogram-intensity packing. */
    method RefreshHistogram()
      requires Valid()
      modifies hgram
      ensures Abs() == Refresh(old(Abs()))
      ensures Valid() && Repr == old(Repr)
    {
      if clock == Slide {
        RebuildHgram(hgram, buf);
      }
      if pack == HIntens {
        Hnorm(hgram);
      }
    }

    /** update_entalpha or update_ptnalpha, by alpha mode. */
    method UpdateAlpha()
      requires Valid()
      modifies Repr
      ensures Abs() == AlphaStage(old(Abs()), ent)
      ensures Valid() && Repr == old(Repr)
    {
      if amode == EntBase {
        EntStage();
      } else if amode == Ptn {
        PtnStage();
      }
    }

    /** update_entalpha(chp, chp->base). */
    method EntStage()
      requires Valid() && amode == EntBase
      modifies alpha
      ensures Abs() == AlphaStage(old(Abs()), ent)
      ensures Valid()
    {
      ghost var s := Abs();
      UpdateEntAlpha(alpha, buf, base, packSz, ent);
      assert Abs() == s.(alpha := EntAlpha(s.buf, s.base, s.packSz, ent));
    }

    /** update_ptnalpha, whose match counts are sent. */
    method PtnStage()
      requires Valid() && amode == Ptn
      modifies this, alpha, pats
      ensures Abs() == AlphaStage(old(Abs()), ent)
      ensures Valid() && Repr == old(Repr)
    {
      var notes := ScanPatterns();
      SendNotes(notes);
    }

    /** The scan of update_ptnalpha: the alpha table painted and the
        progress of the patterns in use. */
    method ScanPatterns() returns (notes: seq<Note>)
      requires Valid()
      modifies alpha, pats
      ensures var r := PtnAlpha(AsWritten, old(alpha[..]), old(pats[..n]), buf[..]);
        Abs() == old(Abs()).(alpha := r.alpha, pats := r.pats + old(pats[n..])) && notes == r.notes
      ensures Wf()
    {
      notes := UpdatePtnAlpha(alpha, pats, n, buf);
      assert pats[..] == pats[..n] + pats[n..];
    }

    /** The match counts update_ptnalpha sends. */
    method SendNotes(notes: seq<Note>)
      requires Wf()
      modifies this
      ensures Abs() == old(Abs()).(sent := old(sent) + NoteMessages(notes))
      ensures Wf() && Repr == old(Repr)
    {
      sent := sent + NoteMessages(notes);
    }

    /** pack_bytes for sample ofs, whose bytes start at buf[i]. */
    method PackBytes(i: nat, ofs: nat) returns (smp: Sample)
      requires Valid() && ofs < Sq(base) && i == ofs * packSz
      ensures smp == Sample(CoordAt(Abs(), ofs), PixelAt(Abs(), ofs))
    {
      var at, lofs := Locate(i, ofs);
      var px := Shade(i, ofs, lofs);
      smp := Sample(at, px);
    }

    /** The switch on the mapping in pack_bytes: where the sample goes, and
        how many coordinate bytes precede its pixel bytes. */
    method Locate(i: nat, ofs: nat) returns (at: Coord, lofs: nat)
      requires Valid() && ofs < Sq(base) && i == ofs * packSz
      ensures at == CoordAt(Abs(), ofs) && lofs == if mapping == Tuple then 2 else 0
    {
      CoordFacts(Abs(), ofs);
      lofs := 0;
      match mapping {
        case Wrap => at := At(ofs % base, ofs / base);
        case Tuple =>
          lofs := lofs + 2;
          at := Scatter(buf[i], buf[i + 1]);
        case Hilbert => at := At(cmap[ofs * 2 + 0], cmap[ofs * 2 + 1]);
      }
    }

    /** The switch on the packing in pack_bytes: the pixel of the sample's
        bytes past the coordinate bytes. */
    method Shade(i: nat, ofs: nat, lofs: nat) returns (px: Pixel)
      requires Valid() && ofs < Sq(base) && i == ofs * packSz && lofs == if mapping == Tuple then 2 else 0
      ensures px == PixelAt(Abs(), ofs)
    {
      SampleBounds(ofs, base, packSz);
      MulDistrib(ofs, 1, packSz);
      ghost var w := Chunk(Abs(), ofs);
      assert forall k :: 0 <= k < packSz ==> w[k] == buf[i + k];
      match pack {
        case Tight => px := Pixel(buf[i + lofs], buf[i + lofs + 1], buf[i + lofs + 2], buf[i + lofs + 3]);
        case TNoAlpha => px := Pixel(buf[i + lofs], buf[i + lofs + 1], buf[i + lofs + 2], alpha[ofs]);
        case Intens => px := Pixel(buf[i + lofs], buf[i + lofs], buf[i + lofs], alpha[ofs]);
        case HIntens =>
          var hv := hgram[buf[i + lofs]] % 256;
          px := Pixel(hv, hv, hv, alpha[ofs]);
      }
    }

    /** The pack loop of ch_step: pack_bytes for every pack_sz bytes of the
        window, sample offset i / pack_sz. */
    method Render() returns (samples: seq<Sample>)
      requires Valid()
      ensures samples == Samples(Abs())
    {
      ghost var all := Samples(Abs());
      samples := [];
      var i: nat := 0;
      ghost var ofs: nat := 0;
      while i < buf.Length
        invariant i == ofs * packSz && ofs <= Sq(base)
        invariant samples == all[..ofs]
        decreases Sq(base) - ofs
      {
        Stride(ofs, Sq(base), packSz);
        samples := PackNext(samples, i, i / packSz);
        i := i + packSz;
        ofs := ofs + 1;
      }
      Stride(ofs, Sq(base), packSz);
    }

    /** One round of the pack loop: the samples so far, then pack_bytes of
        the sample at ofs. */
    method PackNext(samples: seq<Sample>, i: nat, ofs: nat) returns (more: seq<Sample>)
      requires Valid() && ofs < Sq(base) && i == ofs * packSz && samples == Samples(Abs())[..ofs]
      ensures more == Samples(Abs())[..ofs + 1]
    {
      var smp := PackBytes(i, ofs);
      SamplesStep(Abs(), ofs);
      more := samples + [smp];
    }

    /** The samples and the signal, the counter marked as reported, and the
        flush of the tuple mapping. */
    method Publish()
      requires Valid()
      modifies Repr
      ensures Abs() == Emit(old(Abs()))
      ensures Valid() && Repr == old(Repr)
    {
      var samples := Render();
      sent := sent + [Frame(samples)];
      cntLocal := cntTotal;
      if mapping == Tuple {
        sent := sent + [Clear];
      }
    }

    // -------------------------------------------------------------------
    // ch_pack, ch_resize, ch_map
    // -------------------------------------------------------------------

    /** ch_pack. */
    method SetPacking(p: Pack)
      requires Wf() && Shaped(Abs())
      modifies Repr
      ensures Abs() == PackSpec(old(Abs()), p, ent)
      ensures Wf() && fresh(Repr - old(Repr))
      decreases PackRank(Abs(), p), 1
    {
      SetFootprint(p);
      Refit();
    }

    /** The rest of ch_pack: a window that no longer holds base^2 samples
        of the footprint is resized to the same side, and the modes are
        marked as changed. */
    method Refit()
      requires Wf() && Shaped(Abs()) && packSz == Footprint(pack, mapping)
      modifies Repr
      ensures Abs() == Refitted(old(Abs()), ent)
      ensures Wf() && fresh(Repr - old(Repr))
      decreases FitRank(Abs()), 0
    {
      if buf.Length != (base * base) * packSz {
        Resize(base);
      }
      MarkDirty();
    }

    /** The packing and its footprint: the bytes of the packing, two more
        for the coordinates of the tuple mapping. */
    method SetFootprint(p: Pack)
      requires Wf()
      modifies this
      ensures Abs() == old(Abs()).(pack := p, packSz := Footprint(p, old(mapping)))
      ensures Wf() && Repr == old(Repr)
    {
      pack := p;
      packSz := PackSize(p);
      if mapping == Tuple {
        packSz := packSz + 2;
      }
    }

    /** status_dirty: the next step announces the modes. */
    method MarkDirty()
      requires Wf()
      modifies this
      ensures Abs() == old(Abs()).(dirty := true)
      ensures Wf() && Repr == old(Repr)
    {
      dirty := true;
    }

    /** ch_resize. */
    method Resize(b: nat)
      requires Wf() && IsTable(hgram[..]) && n <= pats.Length && Armed(pats[..n])
      modifies Repr
      ensures Abs() == ResizeSpec(old(Abs()), b, ent)
      ensures Wf() && fresh(Repr - old(Repr))
      decreases ResizeRank(Abs()), 0
    {
      Reallocate(b);
      SetMapping(mapping);
    }

    /** The fresh buffers of ch_resize: b^2 zeroed samples and an opaque
        alpha table. */
    method Reallocate(b: nat)
      requires Wf() && IsTable(hgram[..]) && n <= pats.Length && Armed(pats[..n])
      modifies this
      ensures Abs() == Blank(old(Abs()), b)
      ensures Wf() && fresh(Repr - old(Repr))
    {
      var bsqr := b * b;
      var fresh_buf := Filled(bsqr * packSz, 0);
      var fresh_alpha := Filled(bsqr, 255);
      Install(fresh_buf, fresh_alpha);
      SetBase(b);
    }

    /** The new buffers take the place of the old ones. */
    method Install(fresh_buf: array<byte>, fresh_alpha: array<byte>)
      requires Wf() && fresh_buf !in Repr && fresh_alpha !in Repr && fresh_buf != fresh_alpha
      modifies this
      ensures Abs() == old(Abs()).(buf := fresh_buf[..], alpha := fresh_alpha[..])
      ensures Wf() && Repr == old(Repr) + {fresh_buf, fresh_alpha}
    {
      buf, alpha, Repr := fresh_buf, fresh_alpha, Repr + {fresh_buf, fresh_alpha};
    }

    /** The side of the window. */
    method SetBase(b: nat)
      requires Wf()
      modifies this
      ensures Abs() == old(Abs()).(base := b)
      ensures Wf() && Repr == old(Repr)
    {
      base := b;
    }

    /** ch_map. */
    method SetMapping(m: Mapping)
      requires Wf() && Core(Abs())
      modifies Repr
      ensures Abs() == MapSpec(old(Abs()), m, ent)
      ensures Wf() && fresh(Repr - old(Repr))
      decreases MapRank(Abs(), m), 0
    {
      Relut(m);
      ghost var r1 := Repr;
      SetPacking(pack);
      assert fresh(Repr - r1);
      Settle();
    }

    /** The end of ch_map: flush, mark the modes as changed and step. */
    method Settle()
      requires Valid()
      modifies Repr
      ensures Abs() == Engine.Settle(old(Abs()), ent)
      ensures Valid() && Repr == old(Repr)
    {
      Flush();
      Step();
    }

    /** The mapping and its LUT: the Hilbert mapping stores the curve
        coordinates of every sample, the others need none. */
    method Relut(m: Mapping)
      requires Wf() && Core(Abs())
      modifies this
      ensures Abs() == Remap(old(Abs()), m)
      ensures Wf() && fresh(Repr - old(Repr))
    {
      var lut: array<int>;
      if m == Hilbert {
        lut := BuildLut(base);
      } else {
        lut := new int[0];
      }
      Adopt(m, lut);
    }

    /** The mapping and its new LUT take the place of the old ones. */
    method Adopt(m: Mapping, lut: array<int>)
      requires Wf() && lut !in Repr
      modifies this
      ensures Abs() == old(Abs()).(mapping := m, cmap := lut[..])
      ensures Wf() && Repr == old(Repr) + {lut}
    {
      mapping, cmap, Repr := m, lut, Repr + {lut};
    }

    /** The output cleared for the tuple mapping, the modes marked as
        changed. */
    method Flush()
      requires Valid()
      modifies this
      ensures Abs() == Engine.Flush(old(Abs()))
      ensures Valid() && Repr == old(Repr)
    {
      if mapping == Tuple {
        sent := sent + [Clear];
      }
      dirty := true;
    }

    // -------------------------------------------------------------------
    // ch_alpha, ch_reclock, ch_wind, ch_left, ch_tick
    // -------------------------------------------------------------------

    /** ch_alpha. */
    method SetAlpha(a: AlphaMode)
      requires Valid()
      modifies Repr
      ensures Abs() == AlphaSpec(old(Abs()), a)
      ensures Valid() && Repr == old(Repr)
    {
      amode := a;
      if AlphaCode(a) == 0 {
        Fill(alpha, 255);
      }
    }

    /** ch_reclock. */
    method SetClock(c: Clock)
      requires Valid()
      modifies Repr
      ensures Abs() == ReclockSpec(old(Abs()), c)
      ensures Valid() && Repr == old(Repr)
    {
      clock := c;
    }

    /** ch_wind: the off_t stored in the size_t counter. */
    method Wind(ofs: int)
      requires Valid()
      modifies Repr
      ensures Abs() == WindSpec(old(Abs()), ofs)
      ensures Valid() && Repr == old(Repr)
    {
      cntTotal := ofs % U64;
    }

    /** ch_left. */
    method Left() returns (r: nat)
      ensures r == LeftSpec(Abs())
    {
      r := (buf.Length - bufOfs) % U64;
    }

    /** ch_tick. */
    method Tick()
      requires Valid()
      modifies Repr
      ensures Abs() == TickSpec(old(Abs()), ent)
      ensures Valid() && Repr == old(Repr)
    {
      Step();
    }

    // -------------------------------------------------------------------
    // ch_data
    // -------------------------------------------------------------------

    /** ch_data: the number of bytes taken, and whether the window was
        stepped. */
    method Data(chunk: seq<byte>) returns (taken: nat, step: bool)
      requires Valid() && Fits(Abs(), |chunk|)
      modifies Repr
      ensures var r := DataSpec(old(Abs()), chunk, ent);
        Abs() == r.st && taken == r.taken && step == r.stepped
      ensures Valid() && Repr == old(Repr)
    {
      taken := TakeIn(chunk);
      if bufOfs == buf.Length {
        bufOfs := 0;
        step := true;
        Step();
      } else {
        step := false;
      }
    }

    /** The copy loop of ch_data, after the memmove of a short sliding
        write. */
    method TakeIn(chunk: seq<byte>) returns (ntw: nat)
      requires Valid() && Fits(Abs(), |chunk|)
      modifies this, hgram, buf
      ensures Abs() == Ingest(old(Abs()), chunk) && ntw == Taken(old(Abs()), |chunk|)
      ensures Valid() && Repr == old(Repr)
    {
      ntw := Admit(|chunk|);
      Absorb(chunk, ntw);
    }

    /** The start of ch_data: how many bytes of a write of len bytes to
        take and, for a short sliding write, the memmove that makes room
        at the end of the window. */
    method Admit(len: nat) returns (ntw: nat)
      requires Wf() && Fits(Abs(), len)
      modifies this, buf
      ensures Abs() == Admitted(old(Abs()), len) && ntw == Taken(old(Abs()), len)
      ensures Wf() && Repr == old(Repr) && buf == old(buf)
    {
      if clock == Slide {
        if len < buf.Length {
          ntw := len;
          bufOfs := buf.Length - ntw;
          Shift(buf, ntw);
        } else {
          ntw := buf.Length;
        }
      } else {
        ntw := if len < buf.Length - bufOfs then len else buf.Length - bufOfs;
      }
    }

    /** The copy loop of ch_data on the first ntw bytes of a write. */
    method Absorb(chunk: seq<byte>, ntw: nat)
      requires Wf() && IsTable(hgram[..]) && ntw <= |chunk| && bufOfs + ntw <= buf.Length
      modifies this, hgram, buf
      ensures Abs() == Absorbed(old(Abs()), chunk, ntw)
      ensures Wf() && Repr == old(Repr)
    {
      bufOfs := CopyIn(hgram, buf, bufOfs, chunk, ntw);
    }

    // -------------------------------------------------------------------
    // ch_pattern
    // -------------------------------------------------------------------

    /** ch_pattern: grow the array by eight zeroed slots when it is full,
        then fill the next slot. */
    method AddPattern(a: byte, id: nat, flags: Flags, bytes: seq<byte>)
      requires Valid() && |bytes| > 0
      modifies Repr
      ensures Abs() == AddPatternSpec(old(Abs()), bytes, a, id, flags)
      ensures Valid() && fresh(Repr - old(Repr))
    {
      if n + 1 > pats.Length {
        Enlarge();
        assert |Abs().pats| == pats.Length;
      }
      Occupy(a, id, flags, bytes);
    }

    /** The realloc of a full pattern array: eight more zeroed slots. */
    method Enlarge()
      requires Wf() && n == pats.Length
      modifies this
      ensures Abs() == old(Abs()).(pats := old(pats[..]) + seq(8, _ => Vacant))
      ensures Wf() && fresh(Repr - old(Repr))
    {
      var grown := Grow(pats, n);
      pats, Repr := grown, Repr + {grown};
    }

    /** The next slot takes the pattern; one more pattern is in use. */
    method Occupy(a: byte, id: nat, flags: Flags, bytes: seq<byte>)
      requires Wf() && n < pats.Length
      modifies this, pats
      ensures Abs() == old(Abs()).(pats := old(pats[..])[old(n) := old(pats[n]).(bytes := bytes, alpha := a, id := id, flags := flags)], n := old(n) + 1)
      ensures Wf() && Repr == old(Repr)
    {
      pats[n] := pats[n].(bytes := bytes, alpha := a, id := id, flags := flags);
      n := n + 1;
    }

    // -------------------------------------------------------------------
    // rwstat_consume_event
    // -------------------------------------------------------------------

    /** rwstat_consume_event: apply the switch a known GRAPHMODE selector
        stands for and report the event consumed; pass anything else on. */
    method Consume(ev: Event) returns (consumed: bool)
      requires Valid()
      modifies Repr
      ensures (Abs(), consumed) == ConsumeSpec(old(Abs()), ev, ent)
      ensures Valid()
    {
      var cmd := Decode(ev);
      if cmd.None? {
        return false;
      }
      match cmd.value {
        case SwitchClock(c) => SetClock(c);
        case SwitchMapping(m) => SetMapping(m);
        case SwitchPacking(p) => SetPacking(p);
        case SwitchAlpha(a) => SetAlpha(a);
      }
      consumed := true;
    }
  }
}
