/** Small shared vocabulary: an optional value and the byte type. */
module Common {

  datatype Option<T> = None | Some(value: T)

  /** A byte, as the WebSocket transport and the protobuf buffers carry it. */
  type byte = x: int | 0 <= x < 256
}
