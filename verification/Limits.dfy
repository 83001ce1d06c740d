/**
 The size of the process table (proc/proc.h).
 */
module Limits {
  const PROC_MAX := 32
}
