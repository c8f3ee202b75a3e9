/** The build-time choices of gzip.c. Nothing is assumed about them but the
    values they can take. */
module Config {
  type FastLevel = n: nat | n <= 2

  /** CONFIG_GZIP_FAST */
  const GZIP_FAST: FastLevel

  /** Whether unaligned stores of several bytes are possible and low byte first. */
  const UNALIGNED_LITTLE_ENDIAN: bool

  const INBUFSIZ: nat := if GZIP_FAST == 0 then 0x2000 else 0x8000
  const OUTBUFSIZ: nat := if GZIP_FAST == 0 then 8192 else 16384
  const DIST_BUFSIZE: nat := if GZIP_FAST == 0 then 0x2000 else 0x8000
  const LIT_BUFSIZE: nat := if GZIP_FAST == 0 then 0x2000 else if GZIP_FAST == 1 then 0x4000 else 0x8000
  const HASH_BITS: nat := if GZIP_FAST == 0 then 13 else if GZIP_FAST == 1 then 14 else 15
  const OPTIMIZED_PUT_32BIT: bool := GZIP_FAST > 0 && UNALIGNED_LITTLE_ENDIAN
}
