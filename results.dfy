/** Outcomes of the read path: a value, or the way the original program ends without one. */
module Results {

  /** How a run of the original program ends without producing a value.
      - IndexError: a Python `IndexError`, raised when a directory slot or an extent
        record is cut short by the end of the loaded buffer.
      - ChainCycle: the extent-chain walk would never stop, because its continuation
        records lead back into each other.
      - NotFound: `cat` matched no directory entry, so its result variable is never bound. */
  datatype Error = IndexError | ChainCycle | NotFound

  datatype Result<T> = Success(value: T) | Failure(error: Error)
}
