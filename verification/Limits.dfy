/** Limits and constants of the C implementation: LP64, 32-bit int. */
module Limits {
  const INT_MAX := 0x7fff_ffff
  const LONG_MAX := 0x7fff_ffff_ffff_ffff
  const SSIZE_MAX := 0x7fff_ffff_ffff_ffff
  const WORD := 0x1_0000_0000                      // values of an unsigned int
  const ULLONG := 0x1_0000_0000_0000_0000          // values of an unsigned long long

  /** The null pointer, as an address. */
  const NULL: nat := 0
}
