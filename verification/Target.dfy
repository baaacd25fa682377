/** What the tools know of the target machine. */
module Target {

  /** Addresses have 16 bits; an end address may be one past the last of them. */
  const ADDRESS_SPACE: nat := 0x1_0000
}
