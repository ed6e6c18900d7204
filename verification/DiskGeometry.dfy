/** machine/disk.h: the size and shape of the simulated disk. */
module DiskGeometry {

  const SECTOR_SIZE := 512
  const SECTORS_PER_TRACK := 32
  const NUM_TRACKS := 32
  const NUM_SECTORS := SECTORS_PER_TRACK * NUM_TRACKS
}
