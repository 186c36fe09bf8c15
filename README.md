# splitfs, modelled in Dafny

splitfs is a FUSE filesystem with two modes. In split mode it shows one
source file as a directory of `part_NNN` files of 100 MiB each, the last
one possibly shorter. In join mode it shows several input files as one file,
`full_file`, that reads as their concatenation. No data is copied. This
project models the bookkeeping behind the FUSE callbacks of `main.c`. It
also models the Python variant `splitfs.py`, whose `BigFile` reads a list
of files as one.

Modules:

- `Common` (common.dfy): the byte type, `Option`, the errno values
  (ENOENT 2, EIO 5, ERANGE 34) and the `st_mode` bits.
- `PartTable` (part_table.dfy): the `(name, length)` records. It holds
  the split-mode table (`SplitTable`) with its `part_%.3d` names, the
  join-mode table (`JoinTable`), the first-match name search shared by
  lookup and rename, and the in-place rename of one record.
- `Directory` (directory.dfy): readdir paging. A page is the run of
  entries, from the cursor on, that fits in the reply buffer. A chain of
  pages is the listing.
- `Routing` (routing.dfy): positioned reads on stored contents. It covers
  the split-mode read at an absolute offset and the join-mode read: a
  search for the first part (`Locate`), then a walk across part
  boundaries (`Gather`).
- `SplitFs` (splitfs.dfy): class `FileSystem`. Its fields are the globals
  of `main.c`: `one_to_many`, `total_bytes`, `full_file_name`, the `parts`
  list as a `seq`, and the static readdir cursor. Its methods are the
  start-up loops and the lookup, getattr, readdir, rename and read
  callbacks. Each method is proved against the functions of the modules
  above. `ListTwoPages` makes two successive readdir calls, as the kernel
  does when it lists the directory, and ties their replies to the chain of
  pages.
- `BigFile` (bigfile.dfy): `BigFile.size` and `BigFile.read` of
  `splitfs.py`. A `File` is abstracted as its content.
- `PySplitFs` (pysplitfs.dfy): the path checks of `SplitFS.getattr` and
  `SplitFS.lookup`.

Abstractions:

- An inode is `RootIno`, `WholeIno` (inode 2) or `PartIno(k)`. Here `k`
  is the record's index in the table, where the C code uses the address
  of its list node.
- The source file that split mode reads with `pread` is a `Stored` value:
  its bytes, or an errno that every read fails with.
- Join mode opens each part by name. The files it can open are a map from
  name to `Stored`; a name that is absent from the map is a failed
  `open`.
- `pread` returns up to `size` bytes from the offset. It returns fewer
  only at the end of the file.
- The size `fstat` or `stat` reports at start-up is a parameter: a number,
  or `None` when the call fails.
- The static readdir pointer `part` is the field `cursor`. It is the index
  of the next part to list, or `None` for NULL.

Behaviour of the code worth noting:

- In join mode, the part search skips a part only while the offset is
  strictly greater than its length. So a read at offset exactly
  `total_bytes` is not ERANGE. It reads nothing from the last part and is
  answered EIO (`Routing.JoinReadAtEnd`).
- Join mode is chosen only when two inputs or more are given
  (main.c:371), so its table is never empty. `SetupJoin` accepts any
  list; on an empty table a read would be ERANGE, even at offset 0.
- A join-mode read of 0 bytes that passes the range check is EIO.
- A join-mode read drops all bytes already read when a later `open` or
  `pread` fails.
- Split-mode start-up counts `total_bytes` down to 0. After it, inode 2
  reports size 0.
- Readdir uses its offset to number the cookies of the entries it emits
  (off + 1, off + 2, ...) and to reset the cursor when it is 0. Any other
  offset resumes at the static cursor, whatever offset the previous call
  handed out.
- Join-mode readdir writes the joined file's entry only when it fits in
  the buffer (`fuse_add_direntry` checks that), but the reply always
  claims the entry's full size (main.c:132-134).
- A split-mode read is not cut at the end of its part. It runs on into
  the bytes of the parts after it (`Routing.SplitReadSource`).
- Rename does not check whether the new name is already in use. In split
  mode, lookup finds the first part with a name, so after a colliding
  rename the new name still finds the earlier part
  (`PartTable.RenameCollision`).
- Python getattr gives the root directory mode bits 0444, where the C
  code uses 0555.

## Model

| member | source | states |
|---|---|---|
| `PartTable.SplitTableShape` | main.c:400-429 | a source of S bytes gives ceil(S / 100 MiB) parts; all are full but the last, which holds 1 byte to 100 MiB; the lengths sum to S; an empty source gives no part; part k is named `PartName(k)` |
| `PartTable.PartNameShape` | main.c:404-406 | a part name is `part_` then at least three digits, exactly three for k < 1000 |
| `PartTable.PartNameInjective` | main.c:405 | distinct part numbers give distinct names, because the digits read back as the number |
| `PartTable.SplitTableNamesUnique` | main.c:400-429 | no two split-mode parts share a name |
| `PartTable.SplitTableName` | main.c:404-406 | split-mode part k (0-based) is named `part_` with k + 1 padded to three digits |
| `PartTable.SplitTableOffset` | main.c:408-415 | split-mode part k starts at byte k * 100 MiB of the source |
| `PartTable.JoinTableShape` | main.c:434-458 | join mode makes one part per input, in argument order, named by the input's canonical path, with its stat size as length |
| `PartTable.FindName` | main.c:39-41 | the search returns the index of a part with the name and no earlier part has it; it returns None exactly when no part has the name |
| `PartTable.FindNameFirst` | main.c:195-197 | the search returns k when part k is the first part with the name |
| `PartTable.SplitTableFind` | main.c:39-61 | every split-mode part is found under its own `part_NNN` name |
| `PartTable.RenamePart` | main.c:199-200 | rename rewrites the name of part k; every length and every other record stay as they were |
| `PartTable.RenameThenFind` | main.c:188-212 | rename keeps the total length; afterwards the new name finds the renamed part unless an earlier part already bears that name; the old name is gone unless another part also bore it |
| `PartTable.RenameCollision` | main.c:195-203 | when an earlier part already bears the new name, the new name does not find the renamed part |
| `Directory.Utf8LengthBounds` | main.c:152 | a name of n characters takes n to 4n bytes in UTF-8 |
| `Directory.Utf8LengthAscii` | main.c:152 | the byte length equals the character count exactly when every character is ASCII |
| `Directory.DirentSize` | main.c:152 | a directory entry takes its 24-byte header plus the name's UTF-8 byte length, rounded up to a multiple of 8 with less than 8 bytes of padding |
| `Directory.PageCount` | main.c:144-159 | the number of entries one readdir call emits never runs past the end of the table |
| `Directory.PageCountFits` | main.c:152-157 | the emitted entries fit in the buffer; unless the page reaches the end of the table, the next entry would not have fitted |
| `Directory.PageCountExact` | main.c:144-159 | a run of entries that fits, ending at the table's end or at the first entry that would overflow, is exactly one page: the loop skips nothing and stops at the first misfit |
| `Directory.PageExact` | main.c:142-159 | where the packing loop stops (the table's end, or the first entry that would overflow), the entries and byte count it has gathered are exactly the page and its size |
| `Directory.PageEntriesAt` | main.c:146-156 | entry j of a page names part c + j by its index, as a regular file, with offset cookie off + j + 1 |
| `Directory.PageShape` | main.c:142-167 | the reply of one split-mode call fits in the buffer and lists parts c, c + 1, ... in order, each by its index, with cookies off + 1, off + 2, ... |
| `Directory.ChainNoSkipNoDuplicate` | main.c:116-159 | a chain of readdir calls emits the parts from the cursor on, in table order, each once, none skipped, up to where the chain stops (an entry too large for an empty buffer ends it early) |
| `Directory.ChainTwoPages` | main.c:116-159 | two successive calls from the same cursor: the second page starts where the first ends, both lie inside the chain, and the second page is empty exactly when the chain stops after the first |
| `Directory.TwoPagesNumbered` | main.c:146-156 | the first two pages of a listing from offset 0, the second resumed at the first one's last cookie, list parts 0, 1, ... in order with cookies 1, 2, ... running on across the calls |
| `Directory.ChainComplete` | main.c:116-159 | when every entry fits in the buffer on its own, a chain of calls from offset 0 lists the whole table |
| `Routing.Pread` | main.c:259 | a read of a readable file returns at most `size` bytes from the offset, fewer only at the end of the file; an unreadable file fails with its errno |
| `Routing.SplitReadSource` | main.c:250-264 | a split-mode read of part k returns the source bytes from k * 100 MiB plus the local offset, passing short reads through |
| `Routing.SplitReadChunk` | main.c:250-264 | a read that lies inside part k returns exactly `size` source bytes at k * 100 MiB plus the local offset |
| `Routing.Locate` | main.c:272-281 | the search fails exactly when the parts run out or the offset is strictly past the total of the parts searched; otherwise the earlier lengths plus the local offset give the offset, the local offset is at most the part's length, and the part found is the first whose cumulative end reaches the offset, so an offset on a boundary stays at the end of the earlier part |
| `Routing.LocateRange` | main.c:272-287 | from the first part, the search fails exactly when there is no part or the offset is strictly past the total |
| `Routing.GatherShortStep` | main.c:304-310 | a short read keeps its bytes in front of what the walk from the next part returns |
| `Routing.GatherIsPrefix` | main.c:289-312 | what the walk returns is the start of the parts' files from the located position: at most `size` bytes, fewer only when the files run out |
| `Routing.GatherSucceeds` | main.c:289-312 | when every file from the located part on can be opened and read, the walk does not fail |
| `Routing.GatherDropsOnFailure` | main.c:291-299 | when the parts before part j yield fewer than `size` bytes and part j cannot be opened or read, the walk fails, dropping the bytes already read |
| `Routing.JoinReadDropsOnFailure` | main.c:291-299 | when the parts before part j yield fewer than `size` bytes from the located position and part j cannot be opened or read, the reply is EIO and the bytes already read are not sent |
| `Routing.JoinReadFailureMidway` | main.c:289-321 | with parts of 5, 7 and 100 bytes whose second file is missing, a 10-byte read at offset 0 is EIO although the first part's 5 bytes were read |
| `Routing.JoinReadData` | main.c:272-321 | a data reply holds 1 to `size` bytes, and they are the start of the parts' files from the located part and offset |
| `Routing.JoinReadRange` | main.c:283-286 | the reply is ERANGE exactly when there is no part or the offset is strictly past the total; a 0-byte read in range is EIO |
| `Routing.JoinReadCorrect` | main.c:272-321 | when the files match the table, a read below the total returns the joined file's bytes from the offset, `size` of them or up to the end |
| `Routing.JoinReadAtEnd` | main.c:272-321 | when the table is not empty and the files match it, a read at offset equal to the total is answered EIO, not ERANGE |
| `Routing.JoinReadAcrossBoundary` | main.c:289-312 | with two 10-byte parts, 10 bytes at offset 5 are the last 5 bytes of the first and the first 5 of the second |
| `SplitFs.FileSystem.constructor` | main.c:9-20 | the globals start in split mode with no part, `total_bytes` 0 and a NULL cursor |
| `SplitFs.FileSystem.SetupSplit` | main.c:384-429 | start-up fails when the source cannot be sized; otherwise the parts are `SplitTable(S)` and `total_bytes` ends at 0 |
| `SplitFs.FileSystem.SetupJoin` | main.c:431-458 | start-up succeeds exactly when every input is stat'ed; the parts are then `JoinTable(inputs)` and `total_bytes` is their sum; on failure the parts before the first failing input are in place |
| `SplitFs.FileSystem.GetAttr` | main.c:96-112 | the root is an S_IFDIR 0555 directory, inode 2 an S_IFREG 0444 file of `total_bytes`, a part inode an S_IFREG 0444 file of its part's length |
| `SplitFs.FileSystem.Lookup` | main.c:33-83 | split mode answers with the first part of that name, join mode only with inode 2 for `full_file_name`, anything else with ENOENT; the entry's attributes are getattr's; nothing changes |
| `SplitFs.FileSystem.Readdir` | main.c:114-174 | offset 0 resets the cursor; split mode replies with the page from the cursor, at most `size` bytes, and moves the cursor just past it, so the cursor's index is the start plus the entries emitted; join mode replies at offset 0 with the joined file's entry if it fits and an empty entry list otherwise, claiming the entry's size either way, and with nothing at other offsets |
| `SplitFs.ReaddirTwice` | main.c:114-167 | the replies of a split-mode readdir at offset 0 and of the next one at its last cookie are the first two pages of the chain, numbered on across the calls |
| `SplitFs.ListTwoPages` | main.c:114-167 | two successive readdir calls on the filesystem object, the second at the first one's last cookie, reply with the first two pages of the chain, list consecutive parts with consecutive cookies, and leave the cursor just past the parts listed |
| `SplitFs.FileSystem.PackPage` | main.c:142-159 | the packing loop replies with exactly the page from `start`, and the next part to list is the first one left out |
| `SplitFs.FileSystem.Rename` | main.c:188-212 | split mode renames the first part with the old name, or answers ENOENT and changes nothing; join mode renames the joined file whatever the old name |
| `SplitFs.FileSystem.ReadSplit` | main.c:241-265 | the list walk sums the earlier lengths and replies with one pread at that sum plus the offset |
| `SplitFs.FileSystem.SeekPart` | main.c:272-281 | the skipping loop stops at the part and local offset the search locates, or runs out of parts |
| `SplitFs.FileSystem.Collect` | main.c:289-312 | the accumulating loop computes the walk: the bytes gathered, or a failure |
| `SplitFs.FileSystem.ReadJoin` | main.c:266-322 | the join-mode read replies ERANGE, EIO or data as the join-read function does |
| `SplitFs.FileSystem.Read` | main.c:239-323 | the read callback routes by mode to the split-mode or the join-mode read |
| `BigFile.Flatten` | splitfs.py:24-25 | the big file's content is as long as the sum of the file sizes |
| `BigFile.Offsets` | splitfs.py:27-31 | the offset table has one entry per file plus one; it starts at 0 and ends at `size()` |
| `BigFile.OffsetsPrefix` | splitfs.py:27-31 | entry j of the offset table is the size of the files before file j |
| `BigFile.PrefixLens` | splitfs.py:27-31 | the `lens` loop builds the offset table |
| `BigFile.Read` | splitfs.py:26-44 | the read loop, which keeps `pos + length` and `lens[i-1] <= pos`, computes the walk as written and returns at most `length` bytes |
| `BigFile.ReadPastEnd` | splitfs.py:33-36 | a read at or past `size()` returns nothing |
| `BigFile.ReadInsideFile` | splitfs.py:37-39 | a read that lies inside one file returns exactly the big file's bytes from `pos`, `length` of them |
| `BigFile.ReadSkipsBytes` | splitfs.py:38 | with two 10-byte files, a 10-byte read at 5 returns only the first file's last 5 bytes, not the 10 bytes of the big file |
| `BigFile.ReadCorrected` | splitfs.py:26-44 | with the chunk cut at the end of its file, the read returns exactly the big file's bytes from `pos` to min(size, pos + length) |
| `PySplitFs.GetAttr` | splitfs.py:63-75 | `/` is a 0444 directory, `/bigfile` a 0444 regular file of one link and size `big.size()`, any other path -ENOENT; sizing `/bigfile` with no file is an IndexError |
| `PySplitFs.Lookup` | splitfs.py:87-90 | only `/bigfile` is found; any other path is -ENOENT |
| `PySplitFs.LookupAgreesWithGetAttr` | splitfs.py:63-90 | below the root, lookup and getattr agree on which paths exist |
| `PySplitFs.SizeBoundsRead` | splitfs.py:33-36 | a read at or past the size getattr reports returns nothing |

## Left out

- FUSE mounting, the session loop, signal handlers, daemonizing and `fchdir` (main.c:461-495). These are host runtime, not filesystem logic.
- Mode selection from `argc` and the usage message (main.c:369-379). The mode is the choice between `SetupSplit` and `SetupJoin`.
- The real `open`, `pread`, `fstat`, `stat`, `close` and `canonicalize_file_name` calls, and Python's `file()` and `os.stat`. They are replaced by stored contents and optional sizes. A real `pread` may return a short read before the end of the file; the model returns short reads only at the end.
- The wire format of `fuse_add_direntry` and of the `fuse_reply_*` calls. Replies are datatypes. An entry's size is `fuse_dirent_size`'s formula.
- `st_ino` in entries and attributes. Lookup and readdir set it to the inode the reply carries; getattr leaves it 0 (main.c:98). The model's attributes have no `st_ino`.
- `malloc`, `free`, the leaks of the readdir buffer and of the `canonicalize_file_name` result (main.c:437), and the `buf[size]` stack arrays.
- The file descriptor that join-mode read leaks when `pread` fails, since it jumps to the error reply without `close` (main.c:296-299). Descriptors are not modelled.
- The `perror` messages written on failed calls. They are logging only.
- A join-mode input that `canonicalize_file_name` cannot resolve: it returns NULL and `strdup(NULL)` crashes (main.c:437). The model treats such an input as one whose `stat` fails, so start-up fails cleanly.
- The bytes of a join-mode readdir reply whose entry does not fit in the buffer. The reply claims the entry's size, so its bytes lie past what `fuse_add_direntry` wrote; the model records the claimed size and no entry.
- The pointer-as-inode casts. An inode is an index into the table.
- Machine integer widths. `size_t`, `off_t` and the `int` variables `pos` and `len` in readdir and read are unbounded naturals here, so overflow and negative offsets are not modelled.
- `splitfs_access`, which always answers 0.
- Python `SplitFS.readdir`, `truncate` and `read`, the fuse-python registration, and the start-up code (splitfs.py:77-97). The `st_mtime` that getattr copies from `os.lstat`, and the attribute and entry timeouts, are left out too.
- Concurrency. The callbacks are modelled as run one at a time.
- SplitFs.FileSystem.GetAttr: requires that a part inode names a part of the table. The C code reads any other inode as a list node, which has no meaning in the model. The kernel passes only inodes that lookup returned.
- SplitFs.FileSystem.ReadSplit: a part inode that is not in the table gets no reply (`NoReply`), as the C loop returns without replying.

## Findings

| source | as written | input that shows it | evidently intended | confidence | as-written member | corrected member |
|---|---|---|---|---|---|---|
| splitfs.py:38 | the chunk read from file i is `min(length, size of file i)` bytes, even when the read starts in the middle of the file | two files of 10 bytes, `read(5, 10)`: the first chunk counts 10 bytes but only 5 remain, `pos` jumps to 15, and the first 5 bytes of the second file are never returned | the chunk stops at the end of the file: `min(length, lens[i] - pos)` | high, not executed | `BigFile.ReadSkipsBytes` | `BigFile.ReadCorrected` |
