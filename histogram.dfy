/** The byte histogram of a channel: 256 uint32_t buckets that the ingest
    loop and rebuild_hgram bump, and that hnorm rescales to 0..255 for the
    histogram-intensity packing. */
module Histogram {
  import opened Types
  import opened Arith

  /** A histogram table: 256 buckets, each a uint32_t. */
  ghost predicate IsTable(h: seq<int>)
  {
    |h| == 256 && forall v :: 0 <= v < 256 ==> 0 <= h[v] < U32
  }

  /** Number of occurrences of byte value v in s. */
  function Count(s: seq<byte>, v: int): (c: nat)
    ensures c <= |s|
  {
    if s == [] then 0 else Count(s[..|s| - 1], v) + (if s[|s| - 1] == v then 1 else 0)
  }

  /** hgram[b]++ on a uint32_t bucket. */
  function Bump(h: seq<int>, b: byte): (r: seq<int>)
    requires |h| == 256
    ensures |r| == 256
    ensures r[b] == (h[b] + 1) % U32
    ensures forall v :: 0 <= v < 256 && v != b as int ==> r[v] == h[v]
  {
    h[b := (h[b] + 1) % U32]
  }

  /** The table after bumping the bucket of every byte of s, first to last:
      what the loops of rebuild_hgram and ch_data do. */
  function AddAll(h: seq<int>, s: seq<byte>): (r: seq<int>)
    requires |h| == 256
    ensures |r| == 256
    ensures IsTable(h) ==> IsTable(r)
  {
    if s == [] then h else Bump(AddAll(h, s[..|s| - 1]), s[|s| - 1])
  }

  /** Bumping adds each byte's count on top of what the bucket already held
      (the table is not cleared first), modulo 2^32. */
  lemma {:induction false} AddAllCount(h: seq<int>, s: seq<byte>)
    requires IsTable(h)
    ensures IsTable(AddAll(h, s))
    ensures forall v :: 0 <= v < 256 ==> AddAll(h, s)[v] == (h[v] + Count(s, v)) % U32
  {
    if s != [] {
      var s' := s[..|s| - 1];
      var b := s[|s| - 1];
      AddAllCount(h, s');
      var g := AddAll(h, s');
      forall v | 0 <= v < 256
        ensures AddAll(h, s)[v] == (h[v] + Count(s, v)) % U32
      {
        if v == b {
          ModAdd(h[v] + Count(s', v), 1, U32);
        } else {
          DivModUnique(h[v], U32, 0, h[v]);
        }
      }
    } else {
      forall v | 0 <= v < 256
        ensures h[v] == (h[v] + Count(s, v)) % U32
      {
        DivModUnique(h[v], U32, 0, h[v]);
      }
    }
  }

  /** AddAll over a concatenation is AddAll twice. */
  lemma {:induction false} AddAllAppend(h: seq<int>, s: seq<byte>, t: seq<byte>)
    requires |h| == 256
    ensures AddAll(h, s + t) == AddAll(AddAll(h, s), t)
    decreases |t|
  {
    if t != [] {
      assert (s + t)[..|s + t| - 1] == s + t[..|t| - 1];
      AddAllAppend(h, s, t[..|t| - 1]);
    } else {
      assert s + t == s;
    }
  }

  /** Two rounds of bumping count the bytes of both on top of the table. */
  lemma AddAllTwice(h: seq<int>, a: seq<byte>, b: seq<byte>)
    requires IsTable(h)
    ensures forall v :: 0 <= v < 256 ==> AddAll(AddAll(h, a), b)[v] == (h[v] + Count(a, v) + Count(b, v)) % U32
  {
    AddAllCount(h, a);
    AddAllCount(AddAll(h, a), b);
    forall v | 0 <= v < 256
      ensures AddAll(AddAll(h, a), b)[v] == (h[v] + Count(a, v) + Count(b, v)) % U32
    {
      ModAdd(h[v] + Count(a, v), Count(b, v), U32);
    }
  }

  /** Sum of the buckets, without wrap-around. */
  function Sum(h: seq<int>): int
  {
    if h == [] then 0 else Sum(h[..|h| - 1]) + h[|h| - 1]
  }

  lemma {:induction false} SumBounds(h: seq<int>)
    requires forall i :: 0 <= i < |h| ==> h[i] >= 0
    ensures Sum(h) >= 0
    ensures forall i :: 0 <= i < |h| ==> h[i] <= Sum(h)
  {
    if h != [] {
      var h' := h[..|h| - 1];
      SumBounds(h');
    }
  }

  lemma {:induction false} SumZero(h: seq<int>)
    requires forall i :: 0 <= i < |h| ==> h[i] == 0
    ensures Sum(h) == 0
  {
    if h != [] {
      SumZero(h[..|h| - 1]);
    }
  }

  /** One bucket of hnorm's result: 255 * h / acc, truncated and cast to
      uint8_t.  The float division is taken exactly. */
  function Scale(x: int, acc: int): (r: int)
    requires x >= 0 && acc > 0
    ensures 0 <= r < 256
  {
    ((255 * x) / acc) % 256
  }

  /** A bucket no larger than the total scales to floor(255 * x / acc)
      without the uint8_t cast cutting it, and the bucket holding the whole
      total scales to 255. */
  lemma ScaleNoWrap(x: int, acc: int)
    requires 0 <= x <= acc && acc > 0
    ensures Scale(x, acc) == (255 * x) / acc <= 255
    ensures x == acc ==> Scale(x, acc) == 255
  {
    ScaleBound(255, x, acc);
    DivModUnique((255 * x) / acc, 256, 0, (255 * x) / acc);
    if x == acc {
      DivModUnique(255 * acc, acc, 255, 0);
    }
  }

  /** hnorm: the accumulated total wraps as a uint32_t; a zero total leaves
      the table as it is. */
  function Normalized(h: seq<int>): (r: seq<int>)
    requires IsTable(h)
    ensures IsTable(r)
  {
    var acc := Sum(h) % U32;
    if acc > 0 then seq(256, i requires 0 <= i < 256 => Scale(h[i], acc)) else h
  }

  /** An all-zero table is left unchanged. */
  lemma NormalizedZero(h: seq<int>)
    requires IsTable(h)
    requires forall i :: 0 <= i < 256 ==> h[i] == 0
    ensures Normalized(h) == h
  {
    SumZero(h);
  }

  /** With a non-zero total that fits in 32 bits every bucket becomes
      floor(255 * h / total), which lies in 0..255. */
  lemma NormalizedValue(h: seq<int>)
    requires IsTable(h) && 0 < Sum(h) < U32
    ensures forall i :: 0 <= i < 256 ==> Normalized(h)[i] == (255 * h[i]) / Sum(h) <= 255
    ensures IsTable(Normalized(h))
  {
    SumBounds(h);
    DivModUnique(Sum(h), U32, 0, Sum(h));
    forall i | 0 <= i < 256
      ensures Normalized(h)[i] == (255 * h[i]) / Sum(h) <= 255
    {
      ScaleBound(255, h[i], Sum(h));
      DivModUnique((255 * h[i]) / Sum(h), 256, 0, (255 * h[i]) / Sum(h));
    }
  }

  /** Normalisation keeps the order of the buckets. */
  lemma NormalizedMonotone(h: seq<int>, a: int, b: int)
    requires IsTable(h) && 0 < Sum(h) < U32
    requires 0 <= a < 256 && 0 <= b < 256 && h[a] <= h[b]
    ensures Normalized(h)[a] <= Normalized(h)[b]
  {
    NormalizedValue(h);
    MulLe(h[a], h[b], 255);
    DivMono(255 * h[a], 255 * h[b], Sum(h));
  }

  /** rebuild_hgram: bump the bucket of every byte of the window. */
  method RebuildHgram(hgram: array<int>, buf: array<byte>)
    requires hgram.Length == 256
    modifies hgram
    ensures hgram[..] == AddAll(old(hgram[..]), buf[..])
  {
    var i := 0;
    while i < buf.Length
      invariant 0 <= i <= buf.Length
      invariant hgram[..] == AddAll(old(hgram[..]), buf[..i])
    {
      assert buf[..i + 1][..i] == buf[..i];
      hgram[buf[i]] := (hgram[buf[i]] + 1) % U32;
      i := i + 1;
    }
    assert buf[..i] == buf[..];
  }

  /** hnorm: total the buckets as a uint32_t, then rescale each one. */
  method Hnorm(hgram: array<int>)
    requires IsTable(hgram[..])
    modifies hgram
    ensures hgram[..] == Normalized(old(hgram[..]))
  {
    var acc := 0;
    var i := 0;
    while i < 256
      invariant 0 <= i <= 256
      invariant acc == Sum(hgram[..i]) % U32
      invariant hgram[..] == old(hgram[..])
    {
      assert hgram[..i + 1][..i] == hgram[..i];
      SumBounds(hgram[..i]);
      ModAdd(Sum(hgram[..i]), hgram[i], U32);
      acc := (acc + hgram[i]) % U32;
      i := i + 1;
    }
    assert hgram[..i] == hgram[..];
    if acc > 0 {
      ghost var h := hgram[..];
      i := 0;
      while i < 256
        invariant 0 <= i <= 256
        invariant forall k :: 0 <= k < i ==> hgram[k] == Scale(h[k], acc)
        invariant forall k :: i <= k < 256 ==> hgram[k] == h[k]
      {
        hgram[i] := ((255 * hgram[i]) / acc) % 256;
        i := i + 1;
      }
    }
  }
}
