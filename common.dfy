/** Types and constants shared by the C and the Python filesystems. */
module Common {

  /** One byte of file content. */
  newtype byte = x: int | 0 <= x < 0x100

  datatype Option<+T> = None | Some(value: T)

  function Min(a: nat, b: nat): nat { if a <= b then a else b }

  /** Linux errno values the filesystems reply with. */
  const ENOENT: nat := 2
  const EIO: nat := 5
  const ERANGE: nat := 34

  /** The file-type half of st_mode. */
  const S_IFDIR: nat := 0x4000
  const S_IFREG: nat := 0x8000

  /** Permission bits 0444 (r--r--r--) and 0555 (r-xr-xr-x). */
  const MODE_0444: nat := 0x124
  const MODE_0555: nat := 0x16D
}
