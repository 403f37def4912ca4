/** Error codes and a result type for the operations that can fail.

    The engine reports failures either as a runtime assertion carrying a
    MatX error code (matxInvalidSize, matxInvalidDim) or as a compile-time
    rejection (a static_assert or an ill-formed template instantiation);
    the latter has no code and is modelled as `Rejected`.
 */
module Results {

  datatype Error = InvalidSize | InvalidDim | Rejected

  datatype Result<T> = Ok(value: T) | Err(error: Error)
}
