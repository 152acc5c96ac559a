/** The engine's tuning constants. */
module WorkerConfig {
  /** Minimum time between two progress broadcasts, in milliseconds. */
  const PROGRESS_UPDATE_INTERVAL: int := 1000
  /** Blocks moved per buffer of the write pass; the streams get half each for two slots. */
  const BUFFER_BLOCKS: int := 4096
  /** Slots of the streams' prefetch and write-behind queues. */
  const QUEUE_SIZE: int := 2
  /** Watchdog timeout of one I/O step, in milliseconds (the watchdog itself is not modelled). */
  const IO_TIMEOUT: int := 10 * 1000
  /** The fixed chunk size of the verify pass. */
  const VERIFY_CHUNK: nat := 1024
  /** Size of the speed window behind the reported speed. */
  const SPEED_WINDOW: nat := 10
}
