/** What the file system and the dispatch layer share: error numbers, mode bits,
    and the two ways a Go operation can end (a returned value or a panic). */
module Fuse {

  datatype Option<+T> = None | Some(value: T)

  newtype byte = x: int | 0 <= x < 256

  type Bytes = seq<byte>

  // The numbers are those of the build without cgo; the other builds take them
  // from the platform's C headers.
  const ENOENT := 2
  const EIO := 5
  const EEXIST := 17
  const ENOTDIR := 20
  const EISDIR := 21
  const EINVAL := 22
  const ENOSPC := 28
  const ERANGE := 34
  const ENAMETOOLONG := 38
  const ENOSYS := 40
  const ENOTEMPTY := 41
  const ENOATTR := 120
  const ENOTSUP := 129

  const XATTR_CREATE := 1
  const XATTR_REPLACE := 2
  const RENAME_NOREPLACE: bv32 := 1

  const S_IFMT: bv32 := 0xF000
  const S_IFDIR: bv32 := 0x4000
  const S_IFREG: bv32 := 0x8000
  const S_IFLNK: bv32 := 0xA000
  const PERMISSIONS: bv32 := 0xFFF

  predicate IsDirMode(mode: bv32) {
    mode & S_IFMT == S_IFDIR
  }

  predicate IsLnkMode(mode: bv32) {
    mode & S_IFMT == S_IFLNK
  }

  const TWO_32 := 0x1_0000_0000
  const TWO_63 := 0x8000_0000_0000_0000

  // ^uint64(0), the handle that stands for "no handle".
  const NO_HANDLE: nat := 0xFFFF_FFFF_FFFF_FFFF

  /** A panic either carries a fuse.Error or is a Go run-time error. */
  datatype PanicValue = FuseError(code: int) | RuntimeError

  datatype Outcome = Return(val: int) | Panic(value: PanicValue) {
    predicate Failed() {
      Panic? || val < 0
    }
  }

  /** The deferred recoverAsErrno: the number the FUSE library finally receives. */
  function RecoverAsErrno(o: Outcome): int {
    match o
    case Return(val) => val
    case Panic(FuseError(code)) => code
    case Panic(RuntimeError) => -EIO
  }
}
