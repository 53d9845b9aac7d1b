/**
 Return-code classifiers and the integer widening of the binding's
 utilities. Each `check_*` macro evaluates a native call's result once and
 branches once: a failure code becomes `Err` carrying the library's last
 error, anything else is passed through unchanged as `Ok`. The last error
 is read from the native library's thread-local state; here the caller
 supplies it as `lastError`.
 */
module Util {
  import opened Wrappers

  /** A raw pointer, as its address; the null pointer is address 0. */
  type Address = nat

  const NULL: Address := 0

  const U32_LIMIT: nat := 0x1_0000_0000
  const U64_LIMIT: nat := 0x1_0000_0000_0000_0000

  /** The compilation target, as far as the width of `c_ulong` depends on it. */
  datatype Target = Target(pointerWidth: nat, windows: bool)

  /** Whether `c_ulong` is already 64 bits wide (64-bit pointers, not Windows). */
  predicate LongIs64(t: Target)
  {
    t.pointerWidth == 64 && !t.windows
  }

  /** One more than the largest `c_ulong` on the target. */
  function CULongLimit(t: Target): nat
  {
    if LongIs64(t) then U64_LIMIT else U32_LIMIT
  }

  /** `c_ulong_to_u64`: on a target whose `c_ulong` is 64 bits the value is
      returned as it is; elsewhere it goes through `as u64`, which keeps the
      low 64 bits. Either way the value is preserved and fits a `u64`. */
  function CULongToU64(t: Target, val: nat): (r: nat)
    requires val < CULongLimit(t)
    ensures r < U64_LIMIT
    ensures r == val
  {
    if LongIs64(t) then val else val % U64_LIMIT
  }

  /** `check_null!`: a null pointer is a failure; any other pointer is
      returned as it is. */
  function CheckNull<E>(ptr: Address, lastError: E): (r: Result<Address, E>)
    ensures r.Err? <==> ptr == NULL
    ensures r.Ok? ==> r.value == ptr
    ensures r.Err? ==> r.error == lastError
  {
    if ptr == NULL then Err(lastError) else Ok(ptr)
  }

  /** `check_neg!`: only -1 is a failure; every other value, other negative
      values included, is returned as it is. */
  function CheckNeg<E>(ret: int, lastError: E): (r: Result<int, E>)
    ensures r.Err? <==> ret == -1
    ensures r.Ok? ==> r.value == ret
    ensures r.Err? ==> r.error == lastError
  {
    if ret == -1 then Err(lastError) else Ok(ret)
  }

  /** `check_zero!`: only 0 is a failure; every other value is returned as
      it is. */
  function CheckZero<E>(ret: int, lastError: E): (r: Result<int, E>)
    ensures r.Err? <==> ret == 0
    ensures r.Ok? ==> r.value == ret
    ensures r.Err? ==> r.error == lastError
  {
    if ret == 0 then Err(lastError) else Ok(ret)
  }
}
