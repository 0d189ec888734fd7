/**
 * The codec abstraction of the wire protocol: the frame header, the codec
 * type tags, and the table of codec constructors filled in at start-up.
 */
module Codec {
  import opened Wrappers

  /** Go's `uint64`. */
  type Uint64 = x: int | 0 <= x < 0x1_0000_0000_0000_0000

  /**
   * The header preceding every body on the wire: the "Service.Method" name,
   * the sequence number chosen by the client, and an error text (empty on
   * success).
   */
  datatype Header = Header(serviceMethod: string, sequence: Uint64, error: string)

  /**
   * The body values the server writes: a reply string, or the empty struct
   * used as a placeholder when a request cannot be served.
   */
  datatype Body = StringBody(text: string) | InvalidRequest

  /** The codec type tag carried in the handshake. */
  type Type = string

  const GobType: Type := "application/gob"
  /** Declared, but no codec implements it. */
  const JsonType: Type := "application/json"

  /** The codec constructors that exist; only the gob codec is implemented. */
  datatype NewCodecFunc = NewGobCodec

  /** The constructor table as it stands once package initialisation has run. */
  function InitCodecFuncMap(): (m: map<Type, NewCodecFunc>)
    ensures GobType in m && m[GobType] == NewGobCodec
    ensures JsonType !in m
    ensures forall t :: t in m ==> t == GobType
  {
    map[GobType := NewGobCodec]
  }

  const NewCodecFuncMap: map<Type, NewCodecFunc> := InitCodecFuncMap()

  /** Looking a tag up yields `None` (Go's nil constructor) for an unregistered tag. */
  function LookupCodec(t: Type): (f: Option<NewCodecFunc>)
    ensures f.Some? <==> t == GobType
    ensures f.Some? ==> f.value == NewGobCodec
  {
    if t in NewCodecFuncMap then Some(NewCodecFuncMap[t]) else None
  }
}
