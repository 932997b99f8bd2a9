/** Where pack_bytes puts the samples of a window: for the wrap and Hilbert
    mappings every cell of the base x base grid receives exactly one
    sample of the window. */
module Raster {
  import opened Types
  import opened Arith
  import Hilbert
  import opened Engine

  // ---------------------------------------------------------------------
  // The wrap mapping: x = ofs % base, y = ofs / base
  // ---------------------------------------------------------------------

  /** Sample ofs of a base x base window lies on row ofs / base, column
      ofs % base, inside the grid. */
  lemma RowMajor(base: nat, ofs: nat)
    requires ofs < Sq(base)
    ensures 0 <= ofs % base < base && 0 <= ofs / base < base
    ensures ofs == (ofs / base) * base + ofs % base
  {
    RowOf(ofs, base);
  }

  /** Cell (x, y) is sample y * base + x, a sample of the window. */
  lemma RowMajorCell(base: nat, x: nat, y: nat)
    requires x < base && y < base
    ensures y * base + x < Sq(base)
    ensures (y * base + x) % base == x && (y * base + x) / base == y
  {
    MulLe(y, base - 1, base);
    MulDistrib(base, 1, base);
    DivModUnique(y * base + x, base, y, x);
  }

  /** Under the wrap mapping every sample lands inside the grid. */
  lemma WrapInGrid(s: State, ofs: nat)
    requires Valid(s) && s.mapping == Wrap && ofs < Sq(s.base)
    ensures CoordAt(s, ofs).At? && 0 <= CoordAt(s, ofs).x < s.base && 0 <= CoordAt(s, ofs).y < s.base
  {
    RowMajor(s.base, ofs);
  }

  /** Under the wrap mapping every cell of the grid receives sample
      y * base + x. */
  lemma WrapCovers(s: State, x: nat, y: nat)
    requires Valid(s) && s.mapping == Wrap && x < s.base && y < s.base
    ensures y * s.base + x < Sq(s.base) && CoordAt(s, y * s.base + x) == At(x, y)
  {
    RowMajorCell(s.base, x, y);
  }

  /** Under the wrap mapping no two samples share a cell. */
  lemma WrapInjective(s: State, i: nat, j: nat)
    requires Valid(s) && s.mapping == Wrap && i < Sq(s.base) && j < Sq(s.base)
    requires CoordAt(s, i) == CoordAt(s, j)
    ensures i == j
  {
    RowMajor(s.base, i);
    RowMajor(s.base, j);
  }

  // ---------------------------------------------------------------------
  // The Hilbert mapping: the LUT built by ch_map
  // ---------------------------------------------------------------------

  /** Under the Hilbert mapping sample ofs lands on the LUT entry ofs. */
  lemma HilbertCoord(s: State, ofs: nat)
    requires Valid(s) && s.mapping == Hilbert && ofs < Sq(s.base)
    ensures 2 * ofs + 1 < |s.cmap| && CoordAt(s, ofs) == At(Hilbert.Entry(s.cmap, ofs).x, Hilbert.Entry(s.cmap, ofs).y)
  {
  }

  /** For a side 2^k of at most Hilbert.MaxSide, under the Hilbert mapping
      every sample lands inside the grid, no two samples share a cell, and
      every cell receives a sample. */
  lemma HilbertCovers(s: State, k: nat)
    requires Valid(s) && s.mapping == Hilbert && s.base == Hilbert.Pow2(k) <= Hilbert.MaxSide
    ensures forall ofs :: 0 <= ofs < Sq(s.base) ==>
      CoordAt(s, ofs).At? && 0 <= CoordAt(s, ofs).x < s.base && 0 <= CoordAt(s, ofs).y < s.base
    ensures forall i, j :: 0 <= i < Sq(s.base) && 0 <= j < Sq(s.base) && CoordAt(s, i) == CoordAt(s, j) ==> i == j
    ensures forall x: int, y: int :: 0 <= x < s.base && 0 <= y < s.base ==> Placed(s, x, y)
  {
    var n := s.base;
    Hilbert.TableBijection(k);
    forall ofs | 0 <= ofs < Sq(n)
      ensures CoordAt(s, ofs) == At(Hilbert.Entry(s.cmap, ofs).x, Hilbert.Entry(s.cmap, ofs).y)
    {
      HilbertCoord(s, ofs);
    }
    forall x: int, y: int | 0 <= x < n && 0 <= y < n
      ensures Placed(s, x, y)
    {
      assert Hilbert.Stored(s.cmap, n, x, y);
      var i :| 0 <= i < n * n && Hilbert.Entry(s.cmap, i) == Hilbert.Point(x, y);
      assert CoordAt(s, i) == At(x, y);
    }
  }

  /** Some sample of the window lands on cell (x, y). */
  ghost predicate Placed(s: State, x: int, y: int)
    requires Valid(s)
  {
    exists ofs :: 0 <= ofs < Sq(s.base) && CoordAt(s, ofs) == At(x, y)
  }
}
