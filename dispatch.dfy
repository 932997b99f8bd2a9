/** rwstat_consume_event: the fixed table from a GRAPHMODE selector to a
    channel mode switch. */
module Dispatch {
  import opened Types

  /** The part of an arcan_event the dispatcher looks at: a target
      GRAPHMODE command carrying ioevs[0].iv, or any other event. */
  datatype Event = GraphMode(iv: int) | Other

  /** The mode switch a selector stands for. */
  datatype Command =
    | SwitchClock(clock: Clock)
    | SwitchMapping(mapping: Mapping)
    | SwitchPacking(pack: Pack)
    | SwitchAlpha(amode: AlphaMode)

  /** The selector of a command. */
  function Selector(cmd: Command): int
  {
    match cmd
    case SwitchClock(Block) => 0
    case SwitchClock(Slide) => 1
    case SwitchMapping(Wrap) => 10
    case SwitchMapping(Tuple) => 11
    case SwitchMapping(Hilbert) => 12
    case SwitchPacking(Intens) => 20
    case SwitchPacking(HIntens) => 21
    case SwitchPacking(Tight) => 22
    case SwitchPacking(TNoAlpha) => 23
    case SwitchAlpha(Full) => 30
    case SwitchAlpha(Ptn) => 31
    case SwitchAlpha(EntBase) => 32
  }

  /** The selectors the table knows. */
  ghost predicate Known(iv: int)
  {
    iv in {0, 1, 10, 11, 12, 20, 21, 22, 23, 30, 31, 32}
  }

  /** The switch of rwstat_consume_event: a command for a known selector of
      a GRAPHMODE event, nothing for anything else. */
  function Decode(ev: Event): (r: Option<Command>)
    ensures r.Some? <==> ev.GraphMode? && Known(ev.iv)
    ensures r.Some? ==> ev == GraphMode(Selector(r.value))
  {
    match ev
    case Other => None
    case GraphMode(iv) =>
      if iv == 0 then Some(SwitchClock(Block))
      else if iv == 1 then Some(SwitchClock(Slide))
      else if iv == 10 then Some(SwitchMapping(Wrap))
      else if iv == 11 then Some(SwitchMapping(Tuple))
      else if iv == 12 then Some(SwitchMapping(Hilbert))
      else if iv == 20 then Some(SwitchPacking(Intens))
      else if iv == 21 then Some(SwitchPacking(HIntens))
      else if iv == 22 then Some(SwitchPacking(Tight))
      else if iv == 23 then Some(SwitchPacking(TNoAlpha))
      else if iv == 30 then Some(SwitchAlpha(Full))
      else if iv == 31 then Some(SwitchAlpha(Ptn))
      else if iv == 32 then Some(SwitchAlpha(EntBase))
      else None
  }

  /** Every command has a selector that decodes back to it, so no two
      commands share a selector. */
  lemma SelectorRoundTrip(cmd: Command)
    ensures Known(Selector(cmd))
    ensures Decode(GraphMode(Selector(cmd))) == Some(cmd)
  {
  }

  lemma SelectorInjective(c1: Command, c2: Command)
    requires Selector(c1) == Selector(c2)
    ensures c1 == c2
  {
    SelectorRoundTrip(c1);
    SelectorRoundTrip(c2);
  }
}
