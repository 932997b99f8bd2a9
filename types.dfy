/** Shared value types of the channel engine: bytes, an option type and the
    four mode enumerations of a channel, with assumed numeric codes (the
    header that defines the C enums is not part of this model). */
module Types {

  /** uint8_t */
  type byte = x: int | 0 <= x < 256

  /** 2^32: the modulus of a uint32_t counter. */
  const U32: int := 0x1_0000_0000

  datatype Option<+T> = None | Some(value: T)

  /** enum rwstat_clock: how ingested bytes advance the window. */
  datatype Clock = Block | Slide

  /** enum rwstat_pack, in the order of the pack_sizes table. */
  datatype Pack = Tight | TNoAlpha | Intens | HIntens

  /** enum rwstat_mapping: how a sample offset becomes a raster coordinate. */
  datatype Mapping = Wrap | Tuple | Hilbert

  /** enum rwstat_alpha: where the per-sample opacity comes from. */
  datatype AlphaMode = Full | Ptn | EntBase

  function ClockCode(c: Clock): (r: nat)
    ensures r < 2
    ensures c == Slide <==> r == 1
  {
    match c
    case Block => 0
    case Slide => 1
  }

  function PackCode(p: Pack): (r: nat)
    ensures r < 4
  {
    match p
    case Tight => 0
    case TNoAlpha => 1
    case Intens => 2
    case HIntens => 3
  }

  function MapCode(m: Mapping): (r: nat)
    ensures r < 3
  {
    match m
    case Wrap => 0
    case Tuple => 1
    case Hilbert => 2
  }

  function AlphaCode(a: AlphaMode): (r: nat)
    ensures r < 3
    ensures a == Full <==> r == 0
  {
    match a
    case Full => 0
    case Ptn => 1
    case EntBase => 2
  }

  /** The value a uint8_t cast keeps of a non-negative integer. */
  function ToByte(v: nat): (r: byte)
    ensures v < 256 ==> r == v
  {
    v % 256
  }
}
