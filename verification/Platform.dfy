/**
  What the three contracts take from their host: bounded integers, the error
  names they share, calls that return, fail or trap, and the call environment.

  A call that fails or traps leaves all storage as it was.  An entry point is
  therefore a function from the state before the call to a `Result` holding the
  state after it, and `Commit` says what the host keeps.
 */
module Platform {

  const U32_MAX := 0xFFFF_FFFF
  const I32_MAX := 0x7FFF_FFFF
  const U64_MAX := 0xFFFF_FFFF_FFFF_FFFF
  const I128_MAX := 0x7FFF_FFFF_FFFF_FFFF_FFFF_FFFF_FFFF_FFFF

  type u32 = x: int | 0 <= x <= U32_MAX
  type u64 = x: int | 0 <= x <= U64_MAX
  type i128 = x: int | -I128_MAX - 1 <= x <= I128_MAX

  predicate FitsI128(x: int) {
    -I128_MAX - 1 <= x <= I128_MAX
  }

  /** An account or contract address. */
  type Address = string

  datatype Option<+T> = None | Some(value: T)

  /** The contract errors that the modelled entry points can return. */
  datatype CarbonError =
    | ProjectNotFound
    | ProjectSuspended
    | InsufficientCredits
    | AlreadyRetired
    | SerialNumberConflict
    | UnauthorizedVerifier
    | UnauthorizedOracle
    | InvalidVintageYear
    | ListingNotFound
    | InsufficientLiquidity
    | DoubleCountingDetected
    | ZeroAmountNotAllowed
    | InvalidSerialRange
    | BatchTooLarge
    | AlreadyInitialized
    | Arithmetic
    | InvalidNonce

  /** `Err` is a returned contract error, `Trap` a host panic. */
  datatype Result<+T> = Ok(value: T) | Err(error: CarbonError) | Trap {
    predicate IsFailure() {
      !Ok?
    }

    function PropagateFailure<U>(): Result<U>
      requires IsFailure()
    {
      if Err? then Err(error) else Trap
    }

    function Extract(): T
      requires Ok?
    {
      value
    }

    /** The same outcome, without the value. */
    function Outcome(): Result<()> {
      if Ok? then Ok(()) else PropagateFailure<()>()
    }
  }

  /** A guard that returns a contract error. */
  function Need(condition: bool, error: CarbonError): Result<()> {
    if condition then Ok(()) else Err(error)
  }

  /** The state after a call: the new state if the call returned, the old one if not. */
  function Commit<S>(before: S, r: Result<S>): S {
    if r.Ok? then r.value else before
  }

  /** Who has authorised the call, and the ledger's close time in seconds. */
  datatype Env = Env(auth: set<Address>, now: u64)

  function RequireAuth(env: Env, who: Address): Result<()> {
    if who in env.auth then Ok(()) else Trap
  }

  function CheckedI128(x: int): Result<i128> {
    if FitsI128(x) then Ok(x) else Err(Arithmetic)
  }

  function CheckedU64(x: int): Result<u64> {
    if 0 <= x <= U64_MAX then Ok(x) else Err(Arithmetic)
  }

  /** Division that rounds toward zero, as the contracts' integers and the front end's big integers do. */
  function TruncDiv(x: int, d: int): int
    requires d > 0
  {
    if x >= 0 then x / d else -(-x / d)
  }

  function Lookup<V>(m: map<string, V>, k: string, default: V): V {
    if k in m then m[k] else default
  }

  const SECONDS_PER_YEAR := 31_557_600

  /** The year by 365.25-day years: the quotient is cut to 32 bits, the addition is checked. */
  function ApproximateYear(now: u64): Result<u32> {
    var y := 1970 + (now / SECONDS_PER_YEAR) % (U32_MAX + 1);
    if y <= U32_MAX then Ok(y) else Trap
  }

  /** The vintage guard against a given current year; `current + 1` is a checked addition. */
  function VintageGate(vintage: u32, current: Result<u32>): Result<()> {
    if !current.Ok? then Trap
    else if vintage < 1990 then Err(InvalidVintageYear)
    else if current.value == U32_MAX then Trap
    else Need(vintage <= current.value + 1, InvalidVintageYear)
  }

  // ---- Two facts of arithmetic ----

  lemma QuotientIs(n: int, d: int, q: int, r: int)
    requires d > 0 && n == d * q + r && 0 <= r < d
    ensures n / d == q
  {
    var e := n / d - q;
    assert d * e == r - n % d;
    assert e >= 1 ==> d * e >= d;
    assert e <= -1 ==> d * e <= -d;
  }

  lemma MulMonotone(d: nat, x: int, y: int)
    requires x <= y
    ensures d * x <= d * y
  {
  }
}
