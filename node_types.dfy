/**
 * Node type tags and the "solo" (singleton) types, of which a reply carries
 * at most one representative. NodeTypes.h is not part of this model: the tags
 * follow the type letters named in the header comment of the domain server
 * ('I' for an interactive agent, 'M' for an audio mixer). `SOLO_NODE_TYPES` is
 * defined outside the domain server; the model assumes it holds domain,
 * audio mixer and avatar mixer.
 */
module NodeTypes {
  import opened Codec

  const NODE_TYPE_DOMAIN: byte := 'D' as int
  const NODE_TYPE_AGENT: byte := 'I' as int
  const NODE_TYPE_AUDIO_MIXER: byte := 'M' as int
  const NODE_TYPE_AVATAR_MIXER: byte := 'W' as int

  /** `SOLO_NODE_TYPES`, the byte array that `memchr` scans: its contents are assumed. */
  const SOLO_NODE_TYPES: seq<byte> := [NODE_TYPE_DOMAIN, NODE_TYPE_AUDIO_MIXER, NODE_TYPE_AVATAR_MIXER]

  predicate IsSolo(t: byte)
  {
    t in SOLO_NODE_TYPES
  }

  /**
   * The key order of a `std::map<char, ...>`: a type byte read as a signed
   * `char`, so tags from 0x80 up sort before the ASCII ones.
   */
  function CharKey(t: byte): (k: int)
    ensures -0x80 <= k < 0x80
  {
    if t < 0x80 then t else t - 0x100
  }

  /** The type byte whose signed `char` reading is `k`. */
  function KeyByte(k: int): (t: byte)
    requires -0x80 <= k < 0x80
    ensures CharKey(t) == k
  {
    if k < 0 then k + 0x100 else k
  }
}
