/**
 * The Python variant's filesystem (splitfs.py, class SplitFS): one
 * directory "/" holding one file, "/bigfile", whose content is the
 * BigFile of the files named on the command line.
 */
module PySplitFs {
  import opened Common
  import opened BigFile

  /** The path of the mount root and of the one file in it. */
  const ROOT_PATH: string := "/"
  const BIG_PATH: string := "/bigfile"

  /** The SplitStat fields getattr sets: st_mode, st_size and st_nlink (all 0 unless set). */
  datatype Stat = Stat(mode: nat, size: nat, nlink: nat)

  /**
   * What getattr hands back to fuse-python: a stat, a negative errno, or
   * the IndexError that `big.files[0]` raises when no file was given.
   */
  datatype AttrResult = Attrs(st: Stat) | NegErrno(code: int) | IndexError

  /** What lookup hands back: the filesystem object itself, or a negative errno. */
  datatype LookupResult = Found | LookupErrno(code: int)

  /**
   * getattr: the root is a directory with permission bits 0444, /bigfile a
   * 0444 regular file of one link whose size is the big file's, and any
   * other path -ENOENT. Sizing /bigfile first looks at the first file,
   * which fails when the list is empty.
   */
  function GetAttr(path: string, files: seq<seq<byte>>): (r: AttrResult)
    ensures r.NegErrno? <==> path != ROOT_PATH && path != BIG_PATH
    ensures r.NegErrno? ==> r.code == -(ENOENT as int)
    ensures r.IndexError? <==> path == BIG_PATH && files == []
    ensures path == ROOT_PATH ==> r == Attrs(Stat(S_IFDIR + MODE_0444, 0, 0))
    ensures path == BIG_PATH && files != [] ==> r == Attrs(Stat(S_IFREG + MODE_0444, |Flatten(files)|, 1))
  {
    if path == ROOT_PATH then Attrs(Stat(S_IFDIR + MODE_0444, 0, 0))
    else if path != BIG_PATH then NegErrno(-(ENOENT as int))
    else if files == [] then IndexError
    else Attrs(Stat(S_IFREG + MODE_0444, Size(files), 1))
  }

  /** lookup: only /bigfile is found; any other path is -ENOENT. */
  function Lookup(path: string): (r: LookupResult)
    ensures r.Found? <==> path == BIG_PATH
    ensures r.LookupErrno? ==> r.code == -(ENOENT as int)
  {
    if path != BIG_PATH then LookupErrno(-(ENOENT as int)) else Found
  }

  /**
   * Below the root, lookup and getattr agree on which paths exist: a path
   * lookup finds is one getattr does not answer with an errno, and a path
   * lookup rejects gets the same -ENOENT from getattr.
   */
  lemma LookupAgreesWithGetAttr(path: string, files: seq<seq<byte>>)
    requires path != ROOT_PATH
    ensures Lookup(path).Found? <==> !GetAttr(path, files).NegErrno?
    ensures Lookup(path).LookupErrno? ==> GetAttr(path, files) == NegErrno(Lookup(path).code)
  {
  }

  /**
   * The size getattr reports for /bigfile is where reads stop: a read at
   * that offset or beyond returns no bytes.
   */
  lemma {:induction false} SizeBoundsRead(files: seq<seq<byte>>, pos: nat, length: nat)
    requires files != []
    ensures pos >= GetAttr(BIG_PATH, files).st.size ==> ReadAsWritten(files, pos, length) == []
  {
    if pos >= GetAttr(BIG_PATH, files).st.size {
      ReadPastEnd(files, pos, length);
    }
  }
}
