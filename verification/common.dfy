/** Vocabulary shared by every node type of the binary-tree crate: optional
    values, the answers a walk's step function gives at each node, and the
    outcome of an in-place rotation. */
module Common {

  /** Rust's `Option`. */
  datatype Option<+T> = None | Some(value: T)

  /** `WalkAction`: where a walk goes from the node it is looking at. */
  datatype Action = Left | Right | Stop

  /** `rotate_left`/`rotate_right` change the node in place and report
      `Ok(())` or `Err(())`; `node` is the node as it is after the call. */
  datatype Rotated<N> = Rotated(ok: bool, node: N)

  function Max(a: int, b: int): int {
    if a < b then b else a
  }
}
