/** The failure-carrying result used in place of the scripts' `sys.exit(1)`
    and `raise ValueError`: every error path returns a distinguishable `Err`. */
module Results {

  datatype Result<+T, +E> = Ok(value: T) | Err(error: E)
}
