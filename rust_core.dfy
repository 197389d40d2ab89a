/**
 * The few Rust standard types the model needs: `Option`, `Result` and the
 * fixed-width unsigned integers used for ports (`u16`) and process ids (`u32`).
 */
module RustCore {

  datatype Option<T> = None | Some(value: T)

  datatype Result<T, E> = Ok(value: T) | Err(error: E)

  const U16_LIMIT: nat := 0x1_0000
  const U32_LIMIT: nat := 0x1_0000_0000

  type u16 = x: int | 0 <= x < 0x1_0000
  type u32 = x: int | 0 <= x < 0x1_0000_0000
}
