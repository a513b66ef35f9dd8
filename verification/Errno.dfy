/** The error numbers of os-std/errno.hh that the models use. */
module Errno {
  const SUCCESS := 0
  const LIMIT := -3
  const BAD_FD := -4
  const IO := -7
  const NOT_EXISTS := -9
  const TYPE := -10
  const TIMEOUT := -11
  const PERM := -12
}
