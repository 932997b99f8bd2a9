/** Pattern matching over the window and the opacity painter of the
    pattern alpha mode (update_ptnalpha), with the pattern records of
    struct pattern.

    Each pattern keeps a progress counter into its byte string.  The pass
    visits the window once: every position first gets the running default
    opacity, then every pattern whose next expected byte equals the window
    byte advances; a pattern that completes resets its progress, paints
    with its own opacity the span of line 250 (the len cells before the
    completing position, cells before the table dropped), may replace the
    default opacity for later positions and may count an event.  A byte
    that does not match leaves the progress where it was. */
module Patterns {
  import opened Types

  /** enum ptn_flags, as its two bits FLAG_STATE and FLAG_EVENT. */
  datatype Flags = Flags(state: bool, event: bool)

  /** struct pattern: the byte string, the match progress buf_pos, the event
      counter evc, the opacity painted on a match and the notification id. */
  datatype Pattern = Pattern(bytes: seq<byte>, pos: nat, evc: nat, alpha: byte, id: nat, flags: Flags)

  /** A slot of the pattern array beyond the ones in use: zero-filled. */
  const Vacant: Pattern := Pattern([], 0, 0, 0, 0, Flags(false, false))

  /** One notification of the pass: pattern id and its match count. */
  datatype Note = Note(id: nat, count: nat)

  /** Every pattern in use has a non-empty byte string. */
  ghost predicate Armed(pats: seq<Pattern>)
  {
    forall j :: 0 <= j < |pats| ==> |pats[j].bytes| > 0
  }

  /** Every pattern's progress points inside its byte string. */
  ghost predicate Ready(pats: seq<Pattern>)
  {
    forall j :: 0 <= j < |pats| ==> pats[j].pos < |pats[j].bytes|
  }

  /** p and q are the same pattern, whatever their progress and count. */
  ghost predicate SameDef(p: Pattern, q: Pattern)
  {
    p.bytes == q.bytes && p.alpha == q.alpha && p.id == q.id && p.flags == q.flags
  }

  ghost predicate SameDefs(ps: seq<Pattern>, qs: seq<Pattern>)
  {
    |ps| == |qs| && forall j :: 0 <= j < |ps| ==> SameDef(ps[j], qs[j])
  }

  // ---------------------------------------------------------------------
  // The span painted on a completed match
  // ---------------------------------------------------------------------

  /** The two readings of the painted span of a match of length len that
      completes at window position i: as the source writes it,
      memset(&alpha[i - len], ..., len), the span ending just before i; and
      the span of the matched bytes, ending at i. */
  datatype Span = AsWritten | Corrected

  function PaintStart(rule: Span, i: nat, len: nat): int
  {
    match rule
    case AsWritten => i - len
    case Corrected => i + 1 - len
  }

  /** memset(&alpha[from], v, len), restricted to the table. */
  function Paint(alpha: seq<byte>, from: int, len: nat, v: byte): (r: seq<byte>)
    ensures |r| == |alpha|
    ensures forall k :: 0 <= k < |alpha| && from <= k < from + len ==> r[k] == v
    ensures forall k :: 0 <= k < |alpha| && !(from <= k < from + len) ==> r[k] == alpha[k]
  {
    seq(|alpha|, k requires 0 <= k < |alpha| => if from <= k < from + len then v else alpha[k])
  }

  /** alpha[i] = v, restricted to the table. */
  function Put(alpha: seq<byte>, i: nat, v: byte): (r: seq<byte>)
    ensures |r| == |alpha|
    ensures i < |alpha| ==> r[i] == v
    ensures forall k :: 0 <= k < |alpha| && k != i ==> r[k] == alpha[k]
  {
    if i < |alpha| then alpha[i := v] else alpha
  }

  // ---------------------------------------------------------------------
  // The scan
  // ---------------------------------------------------------------------

  /** The state the pass carries: the alpha table, the patterns and the
      running default opacity av. */
  datatype Scan = Scan(alpha: seq<byte>, pats: seq<Pattern>, av: byte)

  /** Pattern j looks at window byte b at position i. */
  function Feed(rule: Span, sc: Scan, j: nat, b: byte, i: nat): (r: Scan)
    requires j < |sc.pats| && Ready(sc.pats)
    ensures Ready(r.pats) && SameDefs(r.pats, sc.pats) && |r.alpha| == |sc.alpha|
    ensures forall k :: 0 <= k < |sc.pats| && k != j ==> r.pats[k] == sc.pats[k]
  {
    var p := sc.pats[j];
    if p.bytes[p.pos] != b then sc
    else if p.pos + 1 < |p.bytes| then sc.(pats := sc.pats[j := p.(pos := p.pos + 1)])
    else
      var len := |p.bytes|;
      Scan(Paint(sc.alpha, PaintStart(rule, i, len), len, p.alpha),
           sc.pats[j := p.(pos := 0, evc := if p.flags.event then p.evc + 1 else p.evc)],
           if p.flags.state then p.alpha else sc.av)
  }

  /** What Feed does in each of its three cases: a mismatch changes
      nothing, a partial match advances the pattern, and a completed match
      rewinds it, counts it under FLAG_EVENT, takes its opacity as the
      default under FLAG_STATE and paints the span. */
  lemma FeedCases(rule: Span, sc: Scan, j: nat, b: byte, i: nat)
    requires j < |sc.pats| && Ready(sc.pats)
    ensures var r := Feed(rule, sc, j, b, i); var p := sc.pats[j];
      && (p.bytes[p.pos] != b ==> r == sc)
      && (p.bytes[p.pos] == b && p.pos + 1 < |p.bytes| ==>
            r.pats[j].pos == p.pos + 1 && r.pats[j].evc == p.evc && r.alpha == sc.alpha && r.av == sc.av)
      && (p.bytes[p.pos] == b && p.pos + 1 == |p.bytes| ==>
            && r.pats[j].pos == 0
            && r.pats[j].evc == (if p.flags.event then p.evc + 1 else p.evc)
            && r.av == (if p.flags.state then p.alpha else sc.av)
            && r.alpha == Paint(sc.alpha, PaintStart(rule, i, |p.bytes|), |p.bytes|, p.alpha))
  {
  }

  /** Patterns 0 .. j-1 look at byte b at position i, in index order. */
  function FeedAll(rule: Span, sc: Scan, b: byte, i: nat, j: nat): (r: Scan)
    requires j <= |sc.pats| && Ready(sc.pats)
    ensures Ready(r.pats) && SameDefs(r.pats, sc.pats) && |r.alpha| == |sc.alpha|
    ensures forall k :: j <= k < |sc.pats| ==> r.pats[k] == sc.pats[k]
  {
    if j == 0 then sc else Feed(rule, FeedAll(rule, sc, b, i, j - 1), j - 1, b, i)
  }

  /** Position i of the window: the default opacity first, then every
      pattern. */
  function Visit(rule: Span, sc: Scan, b: byte, i: nat): (r: Scan)
    requires Ready(sc.pats)
    ensures Ready(r.pats) && SameDefs(r.pats, sc.pats) && |r.alpha| == |sc.alpha|
  {
    FeedAll(rule, sc.(alpha := Put(sc.alpha, i, sc.av)), b, i, |sc.pats|)
  }

  /** The pass over the first i positions of the window. */
  function ScanTo(rule: Span, sc: Scan, buf: seq<byte>, i: nat): (r: Scan)
    requires i <= |buf| && Ready(sc.pats)
    ensures Ready(r.pats) && SameDefs(r.pats, sc.pats) && |r.alpha| == |sc.alpha|
  {
    if i == 0 then sc else Visit(rule, ScanTo(rule, sc, buf, i - 1), buf[i - 1], i - 1)
  }

  /** The patterns with progress and count set back to zero. */
  function Reset(pats: seq<Pattern>): (r: seq<Pattern>)
    ensures |r| == |pats| && SameDefs(r, pats)
    ensures forall j :: 0 <= j < |r| ==> r[j].pos == 0 && r[j].evc == 0
  {
    seq(|pats|, j requires 0 <= j < |pats| => pats[j].(pos := 0, evc := 0))
  }

  /** The patterns with their counts set back to zero, progress kept. */
  function Cleared(pats: seq<Pattern>): (r: seq<Pattern>)
    ensures |r| == |pats| && SameDefs(r, pats)
    ensures forall j :: 0 <= j < |r| ==> r[j].pos == pats[j].pos && r[j].evc == 0
  {
    seq(|pats|, j requires 0 <= j < |pats| => pats[j].(evc := 0))
  }

  /** One notification per pattern with a non-zero count, in index order. */
  function Notes(pats: seq<Pattern>): seq<Note>
  {
    if pats == [] then []
    else
      var p := pats[|pats| - 1];
      Notes(pats[..|pats| - 1]) + (if p.evc != 0 then [Note(p.id, p.evc)] else [])
  }

  /** What update_ptnalpha leaves: the alpha table, the patterns in use and
      the notifications it sends. */
  datatype PtnResult = PtnResult(alpha: seq<byte>, pats: seq<Pattern>, notes: seq<Note>)

  /** update_ptnalpha.  Without patterns the whole table becomes opaque;
      otherwise the pass runs from reset patterns and default 0xff, and the
      counts are reported and cleared. */
  function PtnAlpha(rule: Span, alpha: seq<byte>, pats: seq<Pattern>, buf: seq<byte>): (r: PtnResult)
    requires Armed(pats)
    ensures |r.alpha| == |alpha| && SameDefs(r.pats, pats) && Ready(r.pats)
    ensures forall j :: 0 <= j < |r.pats| ==> r.pats[j].evc == 0
    ensures pats == [] ==> r.notes == [] && forall k :: 0 <= k < |r.alpha| ==> r.alpha[k] == 255
  {
    if pats == [] then PtnResult(seq(|alpha|, _ => 255), pats, [])
    else
      var sc := ScanTo(rule, Scan(alpha, Reset(pats), 255), buf, |buf|);
      PtnResult(sc.alpha, Cleared(sc.pats), Notes(sc.pats))
  }

  // ---------------------------------------------------------------------
  // Properties
  // ---------------------------------------------------------------------

  /** The number of patterns with a non-zero count. */
  function Firing(pats: seq<Pattern>): (c: nat)
    ensures c <= |pats|
  {
    if pats == [] then 0 else Firing(pats[..|pats| - 1]) + (if pats[|pats| - 1].evc != 0 then 1 else 0)
  }

  /** src lists, for every note of pats, the index of the pattern it
      reports, in increasing order, and every pattern with a non-zero count
      is listed. */
  ghost predicate Sources(pats: seq<Pattern>, src: seq<nat>)
  {
    && |src| == |Notes(pats)| == Firing(pats)
    && (forall k :: 0 <= k < |src| ==>
          src[k] < |pats| && pats[src[k]].evc != 0 && Notes(pats)[k] == Note(pats[src[k]].id, pats[src[k]].evc))
    && (forall k1, k2 :: 0 <= k1 < k2 < |src| ==> src[k1] < src[k2])
    && (forall j :: 0 <= j < |pats| && pats[j].evc != 0 ==> j in src)
  }

  /** The notifications are exactly the patterns with a non-zero count, one
      each and in index order: src gives the pattern of every note, its
      indices increase, and every pattern with a non-zero count is among
      them. */
  lemma {:induction false} NotesExact(pats: seq<Pattern>) returns (src: seq<nat>)
    ensures |src| == |Notes(pats)| == Firing(pats)
    ensures forall k :: 0 <= k < |src| ==>
      src[k] < |pats| && pats[src[k]].evc != 0 && Notes(pats)[k] == Note(pats[src[k]].id, pats[src[k]].evc)
    ensures forall k1, k2 :: 0 <= k1 < k2 < |src| ==> src[k1] < src[k2]
    ensures forall j :: 0 <= j < |pats| && pats[j].evc != 0 ==>
      j in src && Note(pats[j].id, pats[j].evc) in Notes(pats)
    ensures (forall j :: 0 <= j < |pats| ==> pats[j].evc == 0) ==> Notes(pats) == []
  {
    if pats == [] {
      src := [];
    } else {
      var front := pats[..|pats| - 1];
      var s0 := NotesExact(front);
      assert pats == front + [pats[|pats| - 1]];
      src := NotesSnoc(front, pats[|pats| - 1], s0);
    }
    SourcesNotes(pats, src);
  }

  /** What Sources says about the notes themselves. */
  lemma SourcesNotes(pats: seq<Pattern>, src: seq<nat>)
    requires Sources(pats, src)
    ensures forall j :: 0 <= j < |pats| && pats[j].evc != 0 ==> Note(pats[j].id, pats[j].evc) in Notes(pats)
    ensures (forall j :: 0 <= j < |pats| ==> pats[j].evc == 0) ==> Notes(pats) == []
  {
    var n := Notes(pats);
    forall j | 0 <= j < |pats| && pats[j].evc != 0
      ensures Note(pats[j].id, pats[j].evc) in n
    {
      var k :| 0 <= k < |src| && src[k] == j;
      assert n[k] == Note(pats[j].id, pats[j].evc);
    }
    if |src| > 0 {
      assert pats[src[0]].evc != 0;
    }
  }

  /** One more pattern: its note, if any, comes last. */
  lemma NotesSnoc(front: seq<Pattern>, p: Pattern, s0: seq<nat>) returns (src: seq<nat>)
    requires Sources(front, s0)
    ensures Sources(front + [p], src)
  {
    var pats := front + [p];
    var last := |front|;
    assert pats[..last] == front;
    var n0 := Notes(front);
    var n := Notes(pats);
    assert n == n0 + (if p.evc != 0 then [Note(p.id, p.evc)] else []);
    src := s0 + (if p.evc != 0 then [last] else []);
    forall k | 0 <= k < |src|
      ensures src[k] < |pats| && pats[src[k]].evc != 0 && n[k] == Note(pats[src[k]].id, pats[src[k]].evc)
    {
      if k < |s0| {
        assert src[k] == s0[k] && n[k] == n0[k] && pats[s0[k]] == front[s0[k]];
      }
    }
    forall j | 0 <= j < |pats| && pats[j].evc != 0
      ensures j in src
    {
      if j < last {
        assert front[j] == pats[j];
        var k :| 0 <= k < |s0| && s0[k] == j;
        assert src[k] == j;
      } else {
        assert src[|src| - 1] == last;
      }
    }
  }

  /** Progress never exceeds the number of positions visited since the
      reset. */
  lemma {:induction false} ProgressBound(rule: Span, sc: Scan, buf: seq<byte>, i: nat)
    requires i <= |buf| && Ready(sc.pats)
    requires forall j :: 0 <= j < |sc.pats| ==> sc.pats[j].pos == 0
    ensures forall j :: 0 <= j < |sc.pats| ==> ScanTo(rule, sc, buf, i).pats[j].pos <= i
  {
    if i > 0 {
      ProgressBound(rule, sc, buf, i - 1);
      var before := ScanTo(rule, sc, buf, i - 1);
      var start := before.(alpha := Put(before.alpha, i - 1, before.av));
      FeedAllBound(rule, start, buf[i - 1], i - 1, |start.pats|, i - 1);
    }
  }

  /** During one position, each pattern's progress grows by at most one. */
  lemma {:induction false} FeedAllBound(rule: Span, sc: Scan, b: byte, i: nat, j: nat, m: nat)
    requires j <= |sc.pats| && Ready(sc.pats)
    requires forall k :: 0 <= k < |sc.pats| ==> sc.pats[k].pos <= m
    ensures forall k :: 0 <= k < |sc.pats| ==> FeedAll(rule, sc, b, i, j).pats[k].pos <= m + 1
  {
    if j > 0 {
      FeedAllBound(rule, sc, b, i, j - 1, m);
    }
  }

  /** On the corrected reading, a pattern that completes while the pass
      is at position i started no earlier than position 0: the painted span
      [i + 1 - len, i] lies inside the window. */
  lemma CorrectedSpanInWindow(sc: Scan, buf: seq<byte>, i: nat, j: nat)
    requires i < |buf| && Ready(sc.pats) && j < |sc.pats|
    requires forall k :: 0 <= k < |sc.pats| ==> sc.pats[k].pos == 0
    ensures var st := ScanTo(Corrected, sc, buf, i);
      var mid := FeedAll(Corrected, st.(alpha := Put(st.alpha, i, st.av)), buf[i], i, j);
      mid.pats[j].pos + 1 == |mid.pats[j].bytes| ==>
        0 <= PaintStart(Corrected, i, |mid.pats[j].bytes|) <= i
  {
    ProgressBound(Corrected, sc, buf, i);
    var st := ScanTo(Corrected, sc, buf, i);
    var start := st.(alpha := Put(st.alpha, i, st.av));
    FeedAllBound(Corrected, start, buf[i], i, j, i);
    var mid := FeedAll(Corrected, start, buf[i], i, j);
    assert mid.pats[j] == start.pats[j];
  }

  /** Once pattern j has looked at b, the patterns after it leave it as
      it is. */
  lemma {:induction false} FeedAllAfter(rule: Span, sc: Scan, b: byte, i: nat, j: nat, n: nat)
    requires j < n <= |sc.pats| && Ready(sc.pats)
    ensures FeedAll(rule, sc, b, i, n).pats[j] == FeedAll(rule, sc, b, i, j + 1).pats[j]
  {
    if n > j + 1 {
      FeedAllAfter(rule, sc, b, i, j, n - 1);
      var prev := FeedAll(rule, sc, b, i, n - 1);
      assert FeedAll(rule, sc, b, i, n) == Feed(rule, prev, n - 1, b, i);
    }
  }

  /** A pattern whose next byte is b and which does not complete on it
      advances by one at that position. */
  lemma VisitAdvances(rule: Span, sc: Scan, b: byte, i: nat, j: nat)
    requires Ready(sc.pats) && j < |sc.pats|
    requires sc.pats[j].bytes[sc.pats[j].pos] == b && sc.pats[j].pos + 1 < |sc.pats[j].bytes|
    ensures Visit(rule, sc, b, i).pats[j].pos == sc.pats[j].pos + 1
  {
    var start := sc.(alpha := Put(sc.alpha, i, sc.av));
    FeedAllAfter(rule, start, b, i, j, |start.pats|);
    var mid := FeedAll(rule, start, b, i, j);
    assert mid.pats[j] == sc.pats[j];
    FeedCases(rule, mid, j, b, i);
  }

  /** The pass's step over position e - 1, for a pattern at progress k
      whose next byte is the byte there and which does not complete on it. */
  lemma ScanAdvances(rule: Span, sc: Scan, buf: seq<byte>, e: nat, j: nat, k: nat)
    requires Ready(sc.pats) && j < |sc.pats| && 0 < e <= |buf| && k + 1 < |sc.pats[j].bytes|
    requires ScanTo(rule, sc, buf, e - 1).pats[j].pos == k && buf[e - 1] == sc.pats[j].bytes[k]
    ensures ScanTo(rule, sc, buf, e).pats[j].pos == k + 1
  {
    var before := ScanTo(rule, sc, buf, e - 1);
    assert SameDef(before.pats[j], sc.pats[j]);
    VisitAdvances(rule, before, buf[e - 1], e - 1, j);
  }

  /** Over a stretch buf[s..e] of the window that spells the first e - s
      bytes of pattern j, starting where its progress is 0, the progress
      climbs to e - s: a byte that matches is never lost to another
      pattern. */
  lemma {:induction false} OccurrenceProgress(rule: Span, sc: Scan, buf: seq<byte>, s: nat, e: nat, j: nat)
    requires Ready(sc.pats) && j < |sc.pats| && s <= e <= |buf| && e - s < |sc.pats[j].bytes|
    requires forall t {:trigger sc.pats[j].bytes[t]} :: 0 <= t < e - s ==> buf[s + t] == sc.pats[j].bytes[t]
    requires ScanTo(rule, sc, buf, s).pats[j].pos == 0
    ensures ScanTo(rule, sc, buf, e).pats[j].pos == e - s
  {
    if s < e {
      OccurrenceProgress(rule, sc, buf, s, e - 1, j);
      var k := e - 1 - s;
      assert buf[s + k] == sc.pats[j].bytes[k];
      ScanAdvances(rule, sc, buf, e, j, k);
    }
  }

  /** buf spells w from position s on. */
  lemma Spelled(buf: seq<byte>, s: nat, w: seq<byte>)
    requires s + |w| <= |buf| && buf[s..s + |w|] == w
    ensures forall t :: 0 <= t < |w| ==> buf[s + t] == w[t]
  {
    forall t | 0 <= t < |w|
      ensures buf[s + t] == w[t]
    {
      assert buf[s..s + |w|][t] == buf[s + t];
    }
  }

  /** A contiguous occurrence of pattern j ending at position i, begun
      where its progress is 0, completes at i: when pattern j's turn comes
      there, its progress is len - 1 and the byte it waits for is buf[i]. */
  lemma OccurrenceCompletes(rule: Span, sc: Scan, buf: seq<byte>, i: nat, j: nat)
    requires Ready(sc.pats) && j < |sc.pats|
    requires 0 < |sc.pats[j].bytes| <= i + 1 <= |buf|
    requires buf[i + 1 - |sc.pats[j].bytes| .. i + 1] == sc.pats[j].bytes
    requires ScanTo(rule, sc, buf, i + 1 - |sc.pats[j].bytes|).pats[j].pos == 0
    ensures var st := ScanTo(rule, sc, buf, i);
      var mid := FeedAll(rule, st.(alpha := Put(st.alpha, i, st.av)), buf[i], i, j);
      mid.pats[j].pos + 1 == |sc.pats[j].bytes| && mid.pats[j].bytes[mid.pats[j].pos] == buf[i]
  {
    OccurrenceReaches(rule, sc, buf, i, j);
    var st := ScanTo(rule, sc, buf, i);
    assert SameDef(st.pats[j], sc.pats[j]);
    var mid := FeedAll(rule, st.(alpha := Put(st.alpha, i, st.av)), buf[i], i, j);
    assert mid.pats[j] == st.pats[j];
  }

  /** The pass reaches position i with pattern j one byte short of the
      occurrence, and that byte is buf[i]. */
  lemma OccurrenceReaches(rule: Span, sc: Scan, buf: seq<byte>, i: nat, j: nat)
    requires Ready(sc.pats) && j < |sc.pats|
    requires 0 < |sc.pats[j].bytes| <= i + 1 <= |buf|
    requires buf[i + 1 - |sc.pats[j].bytes| .. i + 1] == sc.pats[j].bytes
    requires ScanTo(rule, sc, buf, i + 1 - |sc.pats[j].bytes|).pats[j].pos == 0
    ensures ScanTo(rule, sc, buf, i).pats[j].pos + 1 == |sc.pats[j].bytes|
    ensures sc.pats[j].bytes[|sc.pats[j].bytes| - 1] == buf[i]
  {
    var w := sc.pats[j].bytes;
    var s := i + 1 - |w|;
    Spelled(buf, s, w);
    OccurrenceProgress(rule, sc, buf, s, i, j);
    assert buf[s + (i - s)] == w[i - s];
  }

  /** On the corrected reading, that completing match paints exactly the
      cells of the occurrence, i + 1 - len .. i, and no other cell. */
  lemma CorrectedPaintsOccurrence(sc: Scan, buf: seq<byte>, i: nat, j: nat)
    requires Ready(sc.pats) && j < |sc.pats|
    requires 0 < |sc.pats[j].bytes| <= i + 1 <= |buf|
    requires buf[i + 1 - |sc.pats[j].bytes| .. i + 1] == sc.pats[j].bytes
    requires ScanTo(Corrected, sc, buf, i + 1 - |sc.pats[j].bytes|).pats[j].pos == 0
    ensures var len := |sc.pats[j].bytes|;
      var st := ScanTo(Corrected, sc, buf, i);
      var mid := FeedAll(Corrected, st.(alpha := Put(st.alpha, i, st.av)), buf[i], i, j);
      var done := Feed(Corrected, mid, j, buf[i], i);
      && (forall k :: i + 1 - len <= k <= i && k < |mid.alpha| ==> done.alpha[k] == sc.pats[j].alpha)
      && (forall k :: 0 <= k < |mid.alpha| && !(i + 1 - len <= k <= i) ==> done.alpha[k] == mid.alpha[k])
  {
    OccurrenceCompletes(Corrected, sc, buf, i, j);
    var st := ScanTo(Corrected, sc, buf, i);
    var mid := FeedAll(Corrected, st.(alpha := Put(st.alpha, i, st.av)), buf[i], i, j);
    assert mid.pats[j].alpha == sc.pats[j].alpha;
    FeedCases(Corrected, mid, j, buf[i], i);
  }

  /** As the source writes it, the same completing match paints the len
      cells i - len .. i - 1: the cell before the occurrence (when there is
      one) and not the occurrence's last byte at i. */
  lemma AsWrittenPaintsOccurrence(sc: Scan, buf: seq<byte>, i: nat, j: nat)
    requires Ready(sc.pats) && j < |sc.pats|
    requires 0 < |sc.pats[j].bytes| <= i + 1 <= |buf|
    requires buf[i + 1 - |sc.pats[j].bytes| .. i + 1] == sc.pats[j].bytes
    requires ScanTo(AsWritten, sc, buf, i + 1 - |sc.pats[j].bytes|).pats[j].pos == 0
    ensures var len := |sc.pats[j].bytes|;
      var st := ScanTo(AsWritten, sc, buf, i);
      var mid := FeedAll(AsWritten, st.(alpha := Put(st.alpha, i, st.av)), buf[i], i, j);
      var done := Feed(AsWritten, mid, j, buf[i], i);
      && (forall k :: i - len <= k < i && 0 <= k < |mid.alpha| ==> done.alpha[k] == sc.pats[j].alpha)
      && (forall k :: 0 <= k < |mid.alpha| && !(i - len <= k < i) ==> done.alpha[k] == mid.alpha[k])
  {
    OccurrenceCompletes(AsWritten, sc, buf, i, j);
    var st := ScanTo(AsWritten, sc, buf, i);
    var mid := FeedAll(AsWritten, st.(alpha := Put(st.alpha, i, st.av)), buf[i], i, j);
    assert mid.pats[j].alpha == sc.pats[j].alpha;
    FeedCases(AsWritten, mid, j, buf[i], i);
  }

  /** A pattern without FLAG_EVENT keeps its count through the pass. */
  lemma {:induction false} CountNeedsEvent(rule: Span, sc: Scan, buf: seq<byte>, i: nat, j: nat)
    requires i <= |buf| && Ready(sc.pats) && j < |sc.pats| && !sc.pats[j].flags.event
    ensures ScanTo(rule, sc, buf, i).pats[j].evc == sc.pats[j].evc
  {
    if i > 0 {
      CountNeedsEvent(rule, sc, buf, i - 1, j);
      var before := ScanTo(rule, sc, buf, i - 1);
      assert before.pats[j].flags == sc.pats[j].flags;
      VisitKeepsCount(rule, before, buf[i - 1], i - 1, j);
    }
  }

  lemma VisitKeepsCount(rule: Span, sc: Scan, b: byte, i: nat, j: nat)
    requires Ready(sc.pats) && j < |sc.pats| && !sc.pats[j].flags.event
    ensures Visit(rule, sc, b, i).pats[j].evc == sc.pats[j].evc
  {
    var start := sc.(alpha := Put(sc.alpha, i, sc.av));
    FeedAllKeepsCount(rule, start, b, i, |start.pats|, j);
  }

  lemma {:induction false} FeedAllKeepsCount(rule: Span, sc: Scan, b: byte, i: nat, j: nat, m: nat)
    requires j <= |sc.pats| && Ready(sc.pats) && m < |sc.pats| && !sc.pats[m].flags.event
    ensures FeedAll(rule, sc, b, i, j).pats[m].evc == sc.pats[m].evc
  {
    if j > 0 {
      FeedAllKeepsCount(rule, sc, b, i, j - 1, m);
    }
  }

  /** Only patterns with FLAG_EVENT are ever reported. */
  lemma NotesNeedEvent(rule: Span, alpha: seq<byte>, pats: seq<Pattern>, buf: seq<byte>)
    requires Armed(pats)
    ensures var notes := PtnAlpha(rule, alpha, pats, buf).notes;
      forall k :: 0 <= k < |notes| ==>
        exists j :: 0 <= j < |pats| && pats[j].flags.event && notes[k].id == pats[j].id
  {
    if pats != [] {
      var sc0 := Scan(alpha, Reset(pats), 255);
      var sc := ScanTo(rule, sc0, buf, |buf|);
      forall j | 0 <= j < |pats| && !pats[j].flags.event
        ensures sc.pats[j].evc == 0
      {
        CountNeedsEvent(rule, sc0, buf, |buf|, j);
      }
      var src := NotesExact(sc.pats);
    }
  }

  /** Some pattern with FLAG_STATE carries opacity av. */
  ghost predicate StateOpacity(pats: seq<Pattern>, av: byte)
  {
    exists k :: 0 <= k < |pats| && pats[k].flags.state && pats[k].alpha == av
  }

  lemma SameDefsOpacity(ps: seq<Pattern>, qs: seq<Pattern>, av: byte)
    requires SameDefs(ps, qs) && StateOpacity(ps, av)
    ensures StateOpacity(qs, av)
  {
    var k :| 0 <= k < |ps| && ps[k].flags.state && ps[k].alpha == av;
    assert SameDef(ps[k], qs[k]);
  }

  /** The default opacity is 0xff until a pattern with FLAG_STATE completes,
      and afterwards the opacity of such a pattern. */
  lemma {:induction false} DefaultOpacity(rule: Span, sc: Scan, buf: seq<byte>, i: nat)
    requires i <= |buf| && Ready(sc.pats) && sc.av == 255
    ensures var av := ScanTo(rule, sc, buf, i).av; av == 255 || StateOpacity(sc.pats, av)
  {
    if i > 0 {
      DefaultOpacity(rule, sc, buf, i - 1);
      ScanOpacity(rule, sc, buf, i);
    }
  }

  /** Position i - 1 keeps the default opacity or takes that of a pattern
      with FLAG_STATE. */
  lemma ScanOpacity(rule: Span, sc: Scan, buf: seq<byte>, i: nat)
    requires 0 < i <= |buf| && Ready(sc.pats)
    ensures var av := ScanTo(rule, sc, buf, i).av;
      av == ScanTo(rule, sc, buf, i - 1).av || StateOpacity(sc.pats, av)
  {
    var before := ScanTo(rule, sc, buf, i - 1);
    VisitOpacity(rule, before, buf[i - 1], i - 1);
    var av := ScanTo(rule, sc, buf, i).av;
    if av != before.av {
      SameDefsOpacity(before.pats, sc.pats, av);
    }
  }

  lemma VisitOpacity(rule: Span, sc: Scan, b: byte, i: nat)
    requires Ready(sc.pats)
    ensures var av := Visit(rule, sc, b, i).av; av == sc.av || StateOpacity(sc.pats, av)
  {
    var start := sc.(alpha := Put(sc.alpha, i, sc.av));
    FeedAllOpacity(rule, start, b, i, |start.pats|);
  }

  lemma {:induction false} FeedAllOpacity(rule: Span, sc: Scan, b: byte, i: nat, j: nat)
    requires j <= |sc.pats| && Ready(sc.pats)
    ensures var av := FeedAll(rule, sc, b, i, j).av; av == sc.av || StateOpacity(sc.pats, av)
  {
    if j > 0 {
      FeedAllOpacity(rule, sc, b, i, j - 1);
      var mid := FeedAll(rule, sc, b, i, j - 1);
      var av := FeedAll(rule, sc, b, i, j).av;
      if av != mid.av {
        assert SameDef(mid.pats[j - 1], sc.pats[j - 1]);
      }
    }
  }

  // ---------------------------------------------------------------------
  // The painted span as written
  // ---------------------------------------------------------------------

  /** The pattern DE AD with opacity 0x10 and no flags. */
  const DeAd: Pattern := Pattern([0xDE, 0xAD], 0, 0, 0x10, 0, Flags(false, false))

  /** The pass over the window 00 DE AD with the single pattern DE AD: the
      match completes at position 2 and paints from PaintStart. */
  lemma {:induction false} DeAdScan(rule: Span)
    ensures ScanTo(rule, Scan([0, 0, 0], [DeAd], 255), [0x00, 0xDE, 0xAD], 3)
      == Scan(Paint([0xff, 0xff, 0xff], PaintStart(rule, 2, 2), 2, 0x10), [DeAd], 255)
  {
    var buf: seq<byte> := [0x00, 0xDE, 0xAD];
    var sc0 := Scan([0, 0, 0], [DeAd], 255);
    var one := DeAd.(pos := 1);
    var s1 := Scan([0xff, 0, 0], [DeAd], 255);
    var s2 := Scan([0xff, 0xff, 0], [one], 255);
    assert Put(sc0.alpha, 0, 255) == s1.alpha;
    assert FeedAll(rule, s1, 0x00, 0, 1) == Feed(rule, FeedAll(rule, s1, 0x00, 0, 0), 0, 0x00, 0);
    assert Visit(rule, sc0, 0x00, 0) == Feed(rule, s1, 0, 0x00, 0) == s1;
    assert ScanTo(rule, sc0, buf, 1) == s1;
    assert Put(s1.alpha, 1, 255) == [0xff, 0xff, 0];
    var t1 := s1.(alpha := [0xff, 0xff, 0]);
    assert FeedAll(rule, t1, 0xDE, 1, 1) == Feed(rule, FeedAll(rule, t1, 0xDE, 1, 0), 0, 0xDE, 1);
    assert Visit(rule, s1, 0xDE, 1) == Feed(rule, t1, 0, 0xDE, 1);
    assert [DeAd][0 := one] == [one];
    assert ScanTo(rule, sc0, buf, 2) == s2;
    assert Put(s2.alpha, 2, 255) == [0xff, 0xff, 0xff];
    var t2 := s2.(alpha := [0xff, 0xff, 0xff]);
    assert FeedAll(rule, t2, 0xAD, 2, 1) == Feed(rule, FeedAll(rule, t2, 0xAD, 2, 0), 0, 0xAD, 2);
    assert Visit(rule, s2, 0xAD, 2) == Feed(rule, t2, 0, 0xAD, 2);
    assert [one][0 := DeAd] == [DeAd];
  }

  /** As written, the span of a match ends just before the position that
      completes it: on the window 00 DE AD the byte 00, which is not part of
      the match, is painted and the last matched byte AD is not.  The
      corrected span paints exactly DE AD. */
  lemma PaintOffByOne()
    ensures PtnAlpha(AsWritten, [0, 0, 0], [DeAd], [0x00, 0xDE, 0xAD]).alpha == [0x10, 0x10, 0xff]
    ensures PtnAlpha(Corrected, [0, 0, 0], [DeAd], [0x00, 0xDE, 0xAD]).alpha == [0xff, 0x10, 0x10]
  {
    assert Reset([DeAd]) == [DeAd];
    DeAdScan(AsWritten);
    DeAdScan(Corrected);
    assert Paint([0xff, 0xff, 0xff], 0, 2, 0x10) == [0x10, 0x10, 0xff];
    assert Paint([0xff, 0xff, 0xff], 1, 2, 0x10) == [0xff, 0x10, 0x10];
  }

  /** As written, a match that completes at position len - 1 (the window
      starts with the pattern) puts the start of the painted span one byte
      before the table: in the source the size_t subtraction i - len wraps
      around and memset writes outside the alpha buffer. */
  lemma PaintUnderflow()
    ensures var st := ScanTo(AsWritten, Scan([0, 0], [DeAd], 255), [0xDE, 0xAD], 1);
      st.pats[0].pos + 1 == |DeAd.bytes| && DeAd.bytes[st.pats[0].pos] == 0xAD &&
      PaintStart(AsWritten, 1, |DeAd.bytes|) == -1
  {
    var sc0 := Scan([0, 0], [DeAd], 255);
    var s0 := Scan([0xff, 0], [DeAd], 255);
    assert Put(sc0.alpha, 0, 255) == s0.alpha;
    assert FeedAll(AsWritten, s0, 0xDE, 0, 1) == Feed(AsWritten, FeedAll(AsWritten, s0, 0xDE, 0, 0), 0, 0xDE, 0);
    assert Visit(AsWritten, sc0, 0xDE, 0) == Feed(AsWritten, s0, 0, 0xDE, 0);
    assert [DeAd][0 := DeAd.(pos := 1)] == [DeAd.(pos := 1)];
  }

  // ---------------------------------------------------------------------
  // update_ptnalpha on the arrays
  // ---------------------------------------------------------------------

  /** memset(&alpha[from], v, len), writes outside the table dropped. */
  method PaintSpan(alpha: array<byte>, from: int, len: nat, v: byte)
    modifies alpha
    ensures alpha[..] == Paint(old(alpha[..]), from, len, v)
  {
    var k := if from < 0 then 0 else from;
    while k < from + len && k < alpha.Length
      invariant 0 <= k
      invariant forall q :: 0 <= q < alpha.Length ==>
        alpha[q] == if from <= q < from + len && q < k then v else old(alpha[q])
      decreases alpha.Length - k
    {
      alpha[k] := v;
      k := k + 1;
    }
    assert forall q :: 0 <= q < alpha.Length ==> alpha[..][q] == Paint(old(alpha[..]), from, len, v)[q];
  }

  /** One pattern looks at byte b at position i (the body of the inner loop
      of update_ptnalpha); returns the new default opacity. */
  method FeedPattern(alpha: array<byte>, pats: array<Pattern>, n: nat, j: nat, b: byte, i: nat, av: byte)
    returns (av': byte)
    requires j < n <= pats.Length && Ready(pats[..n])
    modifies alpha, pats
    ensures Scan(alpha[..], pats[..n], av') == Feed(AsWritten, Scan(old(alpha[..]), old(pats[..n]), av), j, b, i)
    ensures pats[n..] == old(pats[n..])
  {
    av' := av;
    var p := pats[j];
    assert p == pats[..n][j];
    if p.bytes[p.pos] == b {
      if p.pos + 1 == |p.bytes| {
        pats[j] := p.(pos := 0);
        PaintSpan(alpha, i - |p.bytes|, |p.bytes|, p.alpha);
        if p.flags.state {
          av' := p.alpha;
        }
        if p.flags.event {
          pats[j] := pats[j].(evc := p.evc + 1);
        }
      } else {
        pats[j] := p.(pos := p.pos + 1);
      }
    }
    assert pats[..n] == Feed(AsWritten, Scan(old(alpha[..]), old(pats[..n]), av), j, b, i).pats;
  }

  /** One position of the pass: the default opacity, then every pattern. */
  method VisitPosition(alpha: array<byte>, pats: array<Pattern>, n: nat, b: byte, i: nat, av: byte)
    returns (av': byte)
    requires n <= pats.Length && Ready(pats[..n])
    modifies alpha, pats
    ensures Scan(alpha[..], pats[..n], av') == Visit(AsWritten, Scan(old(alpha[..]), old(pats[..n]), av), b, i)
    ensures pats[n..] == old(pats[n..])
  {
    ghost var start := Scan(Put(alpha[..], i, av), pats[..n], av);
    if i < alpha.Length {
      alpha[i] := av;
    }
    assert alpha[..] == start.alpha;
    av' := av;
    var j := 0;
    while j < n
      invariant 0 <= j <= n
      invariant Scan(alpha[..], pats[..n], av') == FeedAll(AsWritten, start, b, i, j)
      invariant pats[n..] == old(pats[n..])
    {
      av' := FeedStep(alpha, pats, n, j, b, i, av', start);
      j := j + 1;
    }
  }

  /** One turn of the inner loop of update_ptnalpha: patterns 0 .. j - 1
      have looked at the byte, and now pattern j does. */
  method FeedStep(alpha: array<byte>, pats: array<Pattern>, n: nat, j: nat, b: byte, i: nat, av: byte, ghost start: Scan)
    returns (av': byte)
    requires j < n <= pats.Length && |start.pats| == n && Ready(start.pats)
    requires Scan(alpha[..], pats[..n], av) == FeedAll(AsWritten, start, b, i, j)
    modifies alpha, pats
    ensures Scan(alpha[..], pats[..n], av') == FeedAll(AsWritten, start, b, i, j + 1)
    ensures pats[n..] == old(pats[n..])
  {
    av' := FeedPattern(alpha, pats, n, j, b, i, av);
  }

  /** update_ptnalpha over the alpha buffer and the first n slots of the
      pattern array, with the span as the source writes it (line 250). */
  method UpdatePtnAlpha(alpha: array<byte>, pats: array<Pattern>, n: nat, buf: array<byte>)
    returns (notes: seq<Note>)
    requires n <= pats.Length && Armed(pats[..n]) && alpha != buf
    modifies alpha, pats
    ensures var r := PtnAlpha(AsWritten, old(alpha[..]), old(pats[..n]), buf[..]);
      alpha[..] == r.alpha && pats[..n] == r.pats && notes == r.notes
    ensures pats[n..] == old(pats[n..])
  {
    if n == 0 {
      var k := 0;
      while k < alpha.Length
        invariant 0 <= k <= alpha.Length
        invariant forall q :: 0 <= q < k ==> alpha[q] == 255
        invariant pats[..] == old(pats[..])
      {
        alpha[k] := 255;
        k := k + 1;
      }
      assert alpha[..] == seq(alpha.Length, _ => 255);
      return [];
    }
    ResetPatterns(pats, n);
    ghost var sc0 := Scan(alpha[..], pats[..n], 255);
    assert sc0 == Scan(old(alpha[..]), Reset(old(pats[..n])), 255);
    ScanWindow(alpha, pats, n, buf);
    notes := ReportCounts(pats, n);
  }

  /** The reset loop of update_ptnalpha. */
  method ResetPatterns(pats: array<Pattern>, n: nat)
    requires n <= pats.Length
    modifies pats
    ensures pats[..n] == Reset(old(pats[..n])) && pats[n..] == old(pats[n..])
  {
    var j := 0;
    while j < n
      invariant 0 <= j <= n
      invariant pats[..j] == Reset(old(pats[..n]))[..j]
      invariant pats[j..] == old(pats[j..])
    {
      pats[j] := pats[j].(pos := 0, evc := 0);
      j := j + 1;
    }
    assert pats[..n] == Reset(old(pats[..n]));
  }

  /** The pass of update_ptnalpha over every position of the window. */
  method ScanWindow(alpha: array<byte>, pats: array<Pattern>, n: nat, buf: array<byte>)
    requires n <= pats.Length && Ready(pats[..n]) && alpha != buf
    modifies alpha, pats
    ensures var r := ScanTo(AsWritten, Scan(old(alpha[..]), old(pats[..n]), 255), buf[..], buf.Length);
      alpha[..] == r.alpha && pats[..n] == r.pats
    ensures pats[n..] == old(pats[n..])
  {
    ghost var sc0 := Scan(alpha[..], pats[..n], 255);
    var av: byte := 255;
    var i := 0;
    while i < buf.Length
      invariant 0 <= i <= buf.Length
      invariant Scan(alpha[..], pats[..n], av) == ScanTo(AsWritten, sc0, buf[..], i)
      invariant pats[n..] == old(pats[n..])
    {
      av := ScanStep(alpha, pats, n, buf, i, av, sc0);
      i := i + 1;
    }
  }

  /** One turn of the outer loop of update_ptnalpha: the pass so far is
      extended by position i. */
  method ScanStep(alpha: array<byte>, pats: array<Pattern>, n: nat, buf: array<byte>, i: nat, av: byte, ghost sc0: Scan)
    returns (av': byte)
    requires n <= pats.Length && Ready(sc0.pats) && alpha != buf && i < buf.Length
    requires Scan(alpha[..], pats[..n], av) == ScanTo(AsWritten, sc0, buf[..], i)
    modifies alpha, pats
    ensures Scan(alpha[..], pats[..n], av') == ScanTo(AsWritten, sc0, buf[..], i + 1)
    ensures pats[n..] == old(pats[n..])
  {
    av' := VisitPosition(alpha, pats, n, buf[i], i, av);
  }

  /** The notification loop of update_ptnalpha: report and clear every
      non-zero count. */
  method ReportCounts(pats: array<Pattern>, n: nat) returns (notes: seq<Note>)
    requires n <= pats.Length
    modifies pats
    ensures notes == Notes(old(pats[..n])) && pats[..n] == Cleared(old(pats[..n]))
    ensures pats[n..] == old(pats[n..])
  {
    ghost var ps := pats[..n];
    notes := [];
    var j := 0;
    while j < n
      invariant 0 <= j <= n
      invariant notes == Notes(ps[..j])
      invariant pats[..j] == Cleared(ps[..j])
      invariant pats[j..n] == ps[j..n]
      invariant pats[n..] == old(pats[n..])
    {
      assert ps[..j + 1][..j] == ps[..j];
      assert pats[j] == ps[j];
      if pats[j].evc != 0 {
        notes := notes + [Note(pats[j].id, pats[j].evc)];
        pats[j] := pats[j].(evc := 0);
      }
      j := j + 1;
    }
    assert ps[..n] == ps;
  }
}
