/** Status codes and the copy primitives' failure model. */
module Status {

  const OK: int := 0
  /** MINIX error numbers as system services see them (negated). */
  const EPERM: int := -1
  const ESRCH: int := -3
  const ENOTTY: int := -25

  type ErrorCode = c: int | c != OK witness EPERM

  /** Which copy between the caller and the driver fails, if any: the copy
      that starts at caller offset `offset` returns `code`. */
  datatype Fault = NoFault | FailAt(offset: nat, code: ErrorCode)

  predicate FailsAt(f: Fault, offset: nat)
  {
    f.FailAt? && f.offset == offset
  }

  /** The status of copying `count` bytes at caller offset `offset` of a grant
      of `grantSize` bytes: the injected failure for that offset if there is
      one, EPERM if the range leaves the grant, OK otherwise. */
  function CopyRc(grantSize: nat, offset: nat, count: nat, f: Fault): (rc: int)
    ensures rc == OK <==> !FailsAt(f, offset) && offset + count <= grantSize
    ensures FailsAt(f, offset) ==> rc == f.code
  {
    if FailsAt(f, offset) then f.code
    else if offset + count > grantSize then EPERM
    else OK
  }
}
