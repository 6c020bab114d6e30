/**
 Regions of physical memory, as the boot loader's memory map lists them.
 */
module MemoryMap {
  const USABLE: nat := 0

  datatype Region = Region(base: nat, size: nat, kind: nat)
}
