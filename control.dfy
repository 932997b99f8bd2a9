/** The entry points of a channel that are not the data path: creation
    (rwstat_addch), the mode switches dispatched from GRAPHMODE events
    (rwstat_consume_event), pattern registration (ch_pattern) and the tick. */
module Control {
  import opened Types
  import opened Histogram
  import opened Patterns
  import opened Dispatch
  import opened Engine

  // ---------------------------------------------------------------------
  // Mode switches
  // ---------------------------------------------------------------------

  /** The channel method a command calls: switch_clock, switch_mapping,
      switch_packing or switch_alpha. */
  function Apply(s: State, cmd: Command, ent: seq<byte> -> byte): (r: State)
    requires Valid(s)
    ensures Valid(r) && r.n == s.n && |r.pats| == |s.pats| && r.cntTotal == s.cntTotal
    ensures cmd.SwitchClock? ==> r == s.(clock := cmd.clock)
    ensures cmd.SwitchMapping? ==>
      r.mapping == cmd.mapping && r.pack == s.pack && r.clock == s.clock && r.amode == s.amode && !r.dirty
    ensures cmd.SwitchPacking? ==>
      r.pack == cmd.pack && r.mapping == s.mapping && r.clock == s.clock && r.amode == s.amode && r.dirty
    ensures cmd.SwitchAlpha? ==> r.amode == cmd.amode && r == s.(amode := r.amode, alpha := r.alpha)
  {
    match cmd
    case SwitchClock(c) => ReclockSpec(s, c)
    case SwitchMapping(m) => MapSpec(s, m, ent)
    case SwitchPacking(p) => PackSpec(s, p, ent)
    case SwitchAlpha(a) => AlphaSpec(s, a)
  }

  /** rwstat_consume_event: a GRAPHMODE command with a known selector is
      applied and consumed; anything else leaves the channel alone and is
      passed on. */
  function ConsumeSpec(s: State, ev: Event, ent: seq<byte> -> byte): (r: (State, bool))
    requires Valid(s)
    ensures Valid(r.0)
    ensures r.1 <==> ev.GraphMode? && Known(ev.iv)
    ensures !r.1 ==> r.0 == s
  {
    match Decode(ev)
    case None => (s, false)
    case Some(cmd) => (Apply(s, cmd, ent), true)
  }

  /** The selector of every command reaches that command, and is
      consumed. */
  lemma ConsumeSelector(s: State, cmd: Command, ent: seq<byte> -> byte)
    requires Valid(s)
    ensures ConsumeSpec(s, GraphMode(Selector(cmd)), ent) == (Apply(s, cmd, ent), true)
  {
    SelectorRoundTrip(cmd);
  }

  /** A consumed event is the selector of the command that was applied. */
  lemma ConsumeDecodes(s: State, ev: Event, ent: seq<byte> -> byte)
    requires Valid(s) && ConsumeSpec(s, ev, ent).1
    ensures exists cmd :: ev == GraphMode(Selector(cmd)) && ConsumeSpec(s, ev, ent).0 == Apply(s, cmd, ent)
  {
    var cmd := Decode(ev).value;
    assert ev == GraphMode(Selector(cmd));
  }

  // ---------------------------------------------------------------------
  // status_dirty
  // ---------------------------------------------------------------------

  /** A packing switch only marks the modes as changed; the next step
      announces them, with the new packing in the stream info. */
  lemma PackAnnouncedOnStep(s: State, p: Pack, ent: seq<byte> -> byte)
    requires Valid(s)
    ensures var s1 := PackSpec(s, p, ent); var r := StepSpec(s1, ent);
      && |r.sent| > |s1.sent| + 1 && r.sent[|s1.sent| + 1] == StreamInfo(Langid(s1))
      && Langid(s1)[0] == (48 + PackCode(p)) as char
  {
    StepReports(PackSpec(s, p, ent), ent);
  }

  // ---------------------------------------------------------------------
  // ch_pattern
  // ---------------------------------------------------------------------

  /** The pattern slots past those in use are all zeroed. */
  ghost predicate Spare(s: State)
  {
    forall k :: s.n <= k < |s.pats| ==> s.pats[k] == Vacant
  }

  /** ch_pattern: when the array is full it grows by eight zeroed slots;
      the next slot then takes the byte string, opacity, id and flags, and
      the count of patterns in use goes up by one.  rwstat_addpatterns only
      registers non-empty byte strings. */
  function AddPatternSpec(s: State, bytes: seq<byte>, alpha: byte, id: nat, flags: Flags): (r: State)
    requires Valid(s) && |bytes| > 0
    ensures Valid(r) && r == s.(pats := r.pats, n := s.n + 1)
    ensures |r.pats| == if s.n + 1 > |s.pats| then |s.pats| + 8 else |s.pats|
    ensures r.pats[..s.n] == s.pats[..s.n]
    ensures SameDef(r.pats[s.n], Pattern(bytes, 0, 0, alpha, id, flags))
    ensures forall k :: s.n < k < |r.pats| ==> r.pats[k] == (if k < |s.pats| then s.pats[k] else Vacant)
  {
    var pats := if s.n + 1 > |s.pats| then s.pats + seq(8, _ => Vacant) else s.pats;
    var p := pats[s.n].(bytes := bytes, alpha := alpha, id := id, flags := flags);
    var pats' := pats[s.n := p];
    assert pats'[..s.n + 1] == s.pats[..s.n] + [p];
    s.(pats := pats', n := s.n + 1)
  }

  /** Registering a pattern keeps the spare slots zeroed, so the new
      pattern starts with no progress and no count. */
  lemma AddPatternFresh(s: State, bytes: seq<byte>, alpha: byte, id: nat, flags: Flags)
    requires Valid(s) && |bytes| > 0 && Spare(s)
    ensures var r := AddPatternSpec(s, bytes, alpha, id, flags);
      Spare(r) && r.pats[s.n] == Pattern(bytes, 0, 0, alpha, id, flags)
  {
  }

  /** A step leaves the spare slots alone. */
  lemma StepKeepsSpare(s: State, ent: seq<byte> -> byte)
    requires Valid(s)
    ensures StepSpec(s, ent).pats[s.n..] == s.pats[s.n..]
  {
    var s2 := Refresh(Announce(s));
    var s3 := AlphaStage(s2, ent);
    if s2.amode == Ptn {
      var r := PtnAlpha(AsWritten, s2.alpha, s2.pats[..s2.n], s2.buf);
      assert s3.pats == r.pats + s2.pats[s2.n..];
    }
  }

  // ---------------------------------------------------------------------
  // rwstat_addch
  // ---------------------------------------------------------------------

  /** The zeroed channel rwstat_addch starts from: the requested clock,
      mapping and packing, entropy-based opacity, no window yet. */
  function Fresh(clock: Clock, m: Mapping, p: Pack): (s: State)
    ensures IsTable(s.hgram) && s.n == 0 && s.pats == [] && s.packSz == 0 && s.sent == []
  {
    State(clock, p, m, EntBase, false, 0, 0, [], [], 0, 0, 0, 0, seq(256, _ => 0), [], [], [])
  }

  /** rwstat_addch: the channel resized to the width of the segment (which
      rebuilds the mapping and steps once), then marked so the next step
      announces its modes again. */
  function InitSpec(clock: Clock, m: Mapping, p: Pack, w: nat, ent: seq<byte> -> byte): (r: State)
    ensures Valid(r) && r.dirty && Spare(r)
    ensures r.clock == clock && r.mapping == m && r.pack == p && r.amode == EntBase && r.base == w
    ensures r.n == 0 && r.cntTotal == 0 && Zeroed(r.buf) && |r.buf| == Sq(w) * Footprint(p, m)
    ensures StreamInfo(Langid(r)) in r.sent
  {
    var s := Fresh(clock, m, p);
    var r := ResizeSpec(s, w, ent);
    assert r.sent[|s.sent|..] == r.sent;
    assert |r.pats| == 0;
    r.(dirty := true)
  }

  /** ch_tick: one step. */
  function TickSpec(s: State, ent: seq<byte> -> byte): (r: State)
    requires Valid(s)
    ensures Valid(r) && !r.dirty && r.buf == s.buf && r.cntLocal == s.cntTotal
    ensures |r.sent| > |s.sent| && r.sent[|s.sent|] == FrameStatus(s.cntLocal, s.cntTotal)
  {
    StepReports(s, ent);
    StepSpec(s, ent)
  }
}
