/**
 * Build-time configuration of the engine. `esh_config.h` is not part of this
 * model; the values are the ones the crate documentation gives as its example
 * configuration.
 */
module Config {

  /** Maximum number of characters in a command, not counting the terminator. */
  const BufferLen: nat := 200

  /** Maximum number of arguments handed to the command callback. */
  const ArgcMax: nat := 10

  /** Size of the static instance pool. */
  const Instances: nat := 1

  /** Length of the history ring buffer. */
  const HistLen: nat := 512
}
