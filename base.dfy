/** Small shared vocabulary: optional values, outcomes of external steps,
    lazily initialised configuration that may panic, and Rust integer widths. */
module Base {

  /** Rust's `Option<T>`. */
  datatype Option<T> = None | Some(value: T) {
    /** `unwrap_or(default)` */
    function GetOr(default: T): T {
      if Some? then value else default
    }
  }

  /** Outcome of a step delegated to an external tool: success, or the
      text of the error it reported. */
  datatype Outcome = Pass | Fail(error: string)

  /** A lazily initialised static: either its value, or the panic that
      its initialiser raises on first use. */
  datatype Loaded<T> = Loaded(value: T) | Panics(message: string)

  const U32_LIMIT: nat := 0x1_0000_0000
  const U64_LIMIT: nat := 0x1_0000_0000_0000_0000

  /** Values of Rust's `u32`. */
  type U32 = n: nat | n < U32_LIMIT

  /** Decimal megabytes of a byte count: divided by 1000, then by 1000, both
      rounding down. */
  function MegaBytes(bytes: nat): (mb: nat)
    ensures mb * 1000000 <= bytes < (mb + 1) * 1000000
  {
    bytes / 1000 / 1000
  }
}
