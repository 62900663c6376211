// The C types unsigned long (also size_t) and unsigned int.
module MachineWord {
  const W := 0x1_0000_0000_0000_0000
  const UNSIGNED := 0x1_0000_0000

  type Word = w: nat | w < W
}
