/**
 * The FUSE low-level filesystem of main.c: the globals it keeps (mode,
 * part list, total size, joined-file name, the readdir cursor) as the
 * fields of one object, start-up table construction, and the lookup,
 * getattr, readdir, rename and read callbacks.
 */
module SplitFs {
  import opened Common
  import opened PartTable
  import opened Directory
  import opened Routing

  /** The attributes a reply carries: st_mode (type and permission bits) and st_size. */
  datatype Attr = Attr(mode: nat, size: nat)

  /** fuse_reply_entry (inode, generation, attributes) or fuse_reply_err. */
  datatype EntryReply = Entry(ino: Inode, generation: nat, attr: Attr) | EntryError(errno: nat)

  /** The name join mode gives the joined file until it is renamed. */
  const FULL_FILE: string := "full_file"

  /** The index a readdir cursor over `parts` stands at; the end of the table for NULL. */
  function CursorIndex(parts: seq<Part>, c: Option<nat>): nat
  {
    if c.Some? then c.value else |parts|
  }

  /** The cursor standing at index k of `parts`, NULL past the last part. */
  function CursorAt(parts: seq<Part>, k: nat): Option<nat>
  {
    if k < |parts| then Some(k) else None
  }

  class FileSystem {
    /** Split mode (`one_to_many`) or join mode. */
    var oneToMany: bool
    /** `total_bytes`: the joined file's size in join mode. */
    var totalBytes: nat
    /** `full_file_name`: the joined file's display name in join mode. */
    var fullFileName: string
    /** The `parts` list, in list order. */
    var parts: seq<Part>
    /** The static `part` pointer of readdir: the next part to list, None for NULL. */
    var cursor: Option<nat>

    ghost predicate Valid()
      reads this
    {
      (cursor.Some? ==> cursor.value < |parts|) &&
      (!oneToMany ==> totalBytes == SumLens(parts))
    }

    /** The globals as the program starts: split mode, no part, nothing counted. */
    constructor ()
      ensures Valid()
      ensures oneToMany && totalBytes == 0 && parts == [] && cursor == None && fullFileName == []
    {
      oneToMany := true;
      totalBytes := 0;
      fullFileName := [];
      parts := [];
      cursor := None;
    }

    /**
     * Split-mode start-up. `st` is the size fstat reports for the source
     * file, None when opening or sizing it fails (the program then exits).
     * The loop cuts `total_bytes` down to 0 while it appends the parts.
     */
    method SetupSplit(st: Option<nat>) returns (ok: bool)
      requires Valid() && parts == [] && totalBytes == 0 && cursor == None
      modifies this
      ensures Valid() && oneToMany
      ensures ok == st.Some?
      ensures parts == if ok then SplitTable(st.value) else []
      ensures totalBytes == 0
      ensures cursor == None && fullFileName == old(fullFileName)
    {
      oneToMany := true;
      if st.None? {
        return false;
      }
      totalBytes := st.value;
      var i := 0;
      while totalBytes > 0
        invariant parts + SplitFrom(totalBytes, i, PartName) == SplitTable(st.value)
        invariant cursor == None && oneToMany && fullFileName == old(fullFileName)
        decreases totalBytes
      {
        var part := Part(PartName(i + 1), if totalBytes >= PART_SIZE_BYTES then PART_SIZE_BYTES else totalBytes);
        SplitLoopStep(parts, totalBytes, i, PartName, SplitTable(st.value));
        totalBytes := totalBytes - part.len;
        i := i + 1;
        parts := parts + [part];
      }
      assert parts + SplitFrom(0, i, PartName) == parts;
      return true;
    }

    /**
     * Join-mode start-up over the inputs in argument order. The program
     * exits at the first input stat fails on, with the parts before it
     * already appended.
     */
    method SetupJoin(inputs: seq<Input>) returns (ok: bool)
      requires Valid() && parts == [] && totalBytes == 0 && cursor == None
      modifies this
      ensures Valid() && !oneToMany && fullFileName == FULL_FILE
      ensures ok == AllStated(inputs)
      ensures ok ==> parts == JoinTable(inputs) && totalBytes == SumLens(parts)
      ensures !ok ==> (exists k :: 0 <= k < |inputs| && inputs[k].size.None? &&
                                   AllStated(inputs[..k]) && parts == JoinTable(inputs[..k]))
      ensures cursor == None
    {
      oneToMany := false;
      fullFileName := FULL_FILE;
      var k := 0;
      while k < |inputs|
        invariant k <= |inputs| && AllStated(inputs[..k])
        invariant parts == JoinTable(inputs[..k]) && totalBytes == SumLens(parts)
        invariant cursor == None && !oneToMany && fullFileName == FULL_FILE
      {
        if inputs[k].size.None? {
          return false;
        }
        var part := Part(inputs[k].path, inputs[k].size.value);
        assert inputs[..k + 1][..k] == inputs[..k];
        SumLensAppend(parts, [part]);
        parts := parts + [part];
        totalBytes := totalBytes + part.len;
        k := k + 1;
      }
      assert inputs[..k] == inputs;
      return true;
    }

    /**
     * getattr: the root is a 0555 directory, inode 2 a 0444 regular file
     * of `total_bytes`, any other inode the 0444 regular file of its part.
     * FUSE only passes inodes a lookup returned, so a part inode is in the
     * table.
     */
    function GetAttr(ino: Inode): (a: Attr)
      reads this
      requires ino.PartIno? ==> ino.index < |parts|
      ensures a.mode == if ino == RootIno then S_IFDIR + MODE_0555 else S_IFREG + MODE_0444
      ensures ino == RootIno ==> a.size == 0
      ensures ino == WholeIno ==> a.size == totalBytes
      ensures ino.PartIno? ==> a.size == parts[ino.index].len
    {
      match ino
      case RootIno => Attr(S_IFDIR + MODE_0555, 0)
      case WholeIno => Attr(S_IFREG + MODE_0444, totalBytes)
      case PartIno(k) => Attr(S_IFREG + MODE_0444, parts[k].len)
    }

    /**
     * lookup: split mode finds the first part with the name, join mode
     * knows only the joined file's name; anything else is ENOENT. The
     * entry's attributes are those getattr gives for its inode. Nothing
     * changes.
     */
    method Lookup(name: string) returns (r: EntryReply)
      requires Valid()
      ensures oneToMany ==> r == match FindName(parts, name)
        case Some(k) => Entry(PartIno(k), 1, Attr(S_IFREG + MODE_0444, parts[k].len))
        case None => EntryError(ENOENT)
      ensures !oneToMany ==> r == if name == fullFileName
        then Entry(WholeIno, 1, Attr(S_IFREG + MODE_0444, totalBytes))
        else EntryError(ENOENT)
      ensures r.Entry? ==> (r.ino.PartIno? ==> r.ino.index < |parts|) && r.attr == GetAttr(r.ino)
    {
      if oneToMany {
        var k := 0;
        while k < |parts|
          invariant k <= |parts|
          invariant forall j :: 0 <= j < k ==> parts[j].name != name
        {
          if parts[k].name == name {
            FindNameFirst(parts, name, k);
            return Entry(PartIno(k), 1, Attr(S_IFREG + MODE_0444, parts[k].len));
          }
          k := k + 1;
        }
        return EntryError(ENOENT);
      } else if name == fullFileName {
        return Entry(WholeIno, 1, Attr(S_IFREG + MODE_0444, totalBytes));
      }
      return EntryError(ENOENT);
    }

    /**
     * readdir. Offset 0 puts the cursor back on the first part; any other
     * offset resumes where the cursor stands, whatever its value. Split
     * mode packs parts from the cursor while they fit in `size` bytes and
     * moves the cursor past them. Join mode lists the joined file alone at
     * offset 0 and nothing after; the entry is written only if it fits in
     * `size` bytes, but the reply claims its whole size either way.
     */
    method Readdir(size: nat, off: nat) returns (r: DirReply)
      requires Valid()
      modifies this`cursor
      ensures Valid()
      ensures var s := if off == 0 then 0 else CursorIndex(parts, old(cursor));
        oneToMany ==>
          s <= |parts| && r == Page(parts, s, size, off) && r.bytes <= size &&
          cursor == CursorAt(parts, s + PageCount(parts, s, size)) &&
          CursorIndex(parts, cursor) == s + |r.entries|
      ensures !oneToMany ==> r == if off != 0 then DirReply([], 0)
        else if DirentSize(fullFileName) <= size
        then DirReply([DirEntry(fullFileName, WholeIno, S_IFREG, 1)], DirentSize(fullFileName))
        else DirReply([], DirentSize(fullFileName))
      ensures !oneToMany ==> cursor == if off == 0 then CursorAt(parts, 0) else old(cursor)
    {
      if off == 0 {
        cursor := CursorAt(parts, 0);
      }
      if !oneToMany {
        if off == 0 {
          var entries := if DirentSize(fullFileName) <= size
            then [DirEntry(fullFileName, WholeIno, S_IFREG, off + 1)] else [];
          r := DirReply(entries, DirentSize(fullFileName));
        } else {
          r := DirReply([], 0);
        }
        return;
      }
      var start := CursorIndex(parts, cursor);
      assert start == if off == 0 then 0 else CursorIndex(parts, old(cursor));
      var next;
      r, next := PackPage(start, size, off);
      PageShape(parts, start, size, off);
      cursor := CursorAt(parts, next);
    }

    /**
     * The packing loop of readdir in split mode: from part `start`, add
     * entries while the next one still fits in `size` bytes. The entries
     * carry the offsets following `off`, one per part.
     */
    method PackPage(start: nat, size: nat, off: nat) returns (r: DirReply, next: nat)
      requires start <= |parts|
      ensures next == start + PageCount(parts, start, size)
      ensures r == Page(parts, start, size, off)
    {
      var ps := parts;
      var k := start;
      var pos := 0;
      var entries := [];
      while k < |ps|
        invariant start <= k <= |ps|
        invariant entries == PageEntries(ps, start, k - start, off)
        invariant pos == EntryBytes(ps[start..k]) && pos <= size
        decreases |ps| - k
      {
        var len := DirentSize(ps[k].name);
        if pos + len > size {
          break;
        }
        EntryBytesStep(ps, start, k);
        PageEntriesPush(ps, start, k, off);
        entries := entries + [DirEntry(ps[k].name, PartIno(k), S_IFREG, off + (k - start) + 1)];
        pos := pos + len;
        k := k + 1;
      }
      PageExact(ps, start, size, off, k);
      r, next := DirReply(entries, pos), k;
    }

    /**
     * rename: split mode renames the first part with the old name and
     * answers ENOENT when there is none; join mode renames the joined file
     * whatever the old name was. Lengths, order and every other name stay.
     */
    method Rename(name: string, newName: string) returns (err: nat)
      requires Valid()
      modifies this`parts, this`fullFileName
      ensures Valid()
      ensures oneToMany ==> fullFileName == old(fullFileName) && match FindName(old(parts), name)
        case Some(k) => err == 0 && parts == RenamePart(old(parts), k, newName)
        case None => err == ENOENT && parts == old(parts)
      ensures !oneToMany ==> err == 0 && fullFileName == newName && parts == old(parts)
    {
      if oneToMany {
        var k := 0;
        while k < |parts|
          invariant k <= |parts|
          invariant forall j :: 0 <= j < k ==> parts[j].name != name
        {
          if parts[k].name == name {
            FindNameFirst(parts, name, k);
            parts := parts[k := Part(newName, parts[k].len)];
            return 0;
          }
          k := k + 1;
        }
        return ENOENT;
      } else {
        fullFileName := newName;
        return 0;
      }
    }

    /**
     * Split-mode read: walk the list adding up the lengths of the parts
     * before the requested one, then one pread on the source at that sum
     * plus `off`.
     */
    method ReadSplit(ino: Inode, size: nat, off: nat, source: Stored) returns (r: ReadReply)
      requires Valid()
      ensures r == SplitRead(parts, source, ino, size, off)
    {
      var offset := 0;
      var k := 0;
      while k < |parts|
        invariant k <= |parts| && offset == SumLens(parts[..k])
        invariant forall j :: 0 <= j < k ==> ino != PartIno(j)
      {
        if ino != PartIno(k) {
          SumLensPrefixStep(parts, k);
          offset := offset + parts[k].len;
          k := k + 1;
          continue;
        }
        offset := offset + off;
        var res := Pread(source, size, offset);
        return ReplyOf(res);
      }
      return NoReply;
    }

    /**
     * Join-mode read: skip parts while `off` is strictly greater than the
     * part's length, then open and pread part after part, collecting bytes
     * until a read fills what is still wanted or the parts run out. A part
     * that cannot be opened or read, or a read that collects nothing, is
     * EIO; running out of parts while skipping is ERANGE.
     */
    method ReadJoin(size: nat, off: nat, disk: map<string, Stored>) returns (r: ReadReply)
      requires Valid()
      ensures r == JoinRead(parts, disk, size, off)
    {
      var i, o := SeekPart(off);
      if i == |parts| {
        return Error(ERANGE);
      }
      var g := Collect(size, i, o, disk);
      if g.None? {
        return Error(EIO);
      }
      if |g.value| > 0 {
        return Data(g.value);
      }
      return Error(EIO);
    }

    /**
     * The first loop of the join-mode read: the part the read starts in and
     * the offset inside it, or i == |parts| when the parts run out.
     */
    method SeekPart(off: nat) returns (i: nat, o: nat)
      ensures i <= |parts|
      ensures Locate(parts, 0, off) == if i == |parts| then None else Some((i, o))
    {
      i, o := 0, off;
      while i < |parts| && o > parts[i].len
        invariant i <= |parts|
        invariant Locate(parts, 0, off) == Locate(parts, i, o)
      {
        o := o - parts[i].len;
        i := i + 1;
      }
    }

    /**
     * The second loop of the join-mode read, from part `i` at offset `o`:
     * the bytes collected, or None when a part cannot be opened or read
     * (the bytes collected so far are dropped).
     */
    method Collect(size: nat, i: nat, o: nat, disk: map<string, Stored>) returns (g: Option<seq<byte>>)
      requires i <= |parts|
      ensures g == Gather(parts, disk, i, o, size)
    {
      var k: nat, local: nat, s: nat := i, o, size;
      var acc: seq<byte> := [];
      ghost var whole := Gather(parts, disk, i, o, size);
      assert whole.Some? ==> [] + whole.value == whole.value;
      while s > 0 && k < |parts|
        invariant k <= |parts|
        invariant whole == Prepend(acc, Gather(parts, disk, k, local, s))
        decreases |parts| - k
      {
        var name := parts[k].name;
        if name !in disk {
          return None;
        }
        var res := Pread(disk[name], s, local);
        if res.ReadFailed? {
          return None;
        }
        var b := res.bytes;
        if |b| == s {
          return Some(acc + b);
        }
        GatherShortStep(parts, disk, k, local, s, acc, b);
        k, local, s := k + 1, 0, s - |b|;
        acc := acc + b;
      }
      assert Gather(parts, disk, k, local, s) == Some([]) && acc + [] == acc;
      return Some(acc);
    }

    /** read: split or join routing by mode. */
    method Read(ino: Inode, size: nat, off: nat, source: Stored, disk: map<string, Stored>)
      returns (r: ReadReply)
      requires Valid()
      ensures r == if oneToMany then SplitRead(parts, source, ino, size, off)
                   else JoinRead(parts, disk, size, off)
    {
      if oneToMany {
        r := ReadSplit(ino, size, off, source);
      } else {
        r := ReadJoin(size, off, disk);
      }
    }
  }

  /**
   * The kernel listing the directory in split mode: a first readdir call at
   * offset 0, then a second one at the cookie of the last entry it got (0
   * when it got none). The two replies are the first two pages of the
   * chain: consecutive parts from the first, with cookies 1, 2, ... running
   * on across the calls; and an empty second reply means the chain of
   * calls stops after the first page.
   */
  method ListTwoPages(fs: FileSystem, room: nat) returns (r1: DirReply, r2: DirReply)
    requires fs.Valid() && fs.oneToMany
    modifies fs`cursor
    ensures fs.Valid()
    ensures r1 == Page(fs.parts, 0, room, 0) && |r1.entries| == PageCount(fs.parts, 0, room)
    ensures r2 == Page(fs.parts, |r1.entries|, room, |r1.entries|)
    ensures |r1.entries| + |r2.entries| <= ChainEnd(fs.parts, 0, room)
    ensures r2.entries == [] <==> |r1.entries| == ChainEnd(fs.parts, 0, room)
    ensures forall j :: 0 <= j < |r1.entries + r2.entries| ==>
      (r1.entries + r2.entries)[j] == DirEntry(fs.parts[j].name, PartIno(j), S_IFREG, j + 1)
    ensures CursorIndex(fs.parts, fs.cursor) == |r1.entries| + |r2.entries|
  {
    r1 := fs.Readdir(room, 0);
    assert CursorIndex(fs.parts, fs.cursor) == |r1.entries|;
    r2 := fs.Readdir(room, |r1.entries|);
    ReaddirTwice(fs.parts, room, r1, r2);
  }

  /**
   * What two successive split-mode readdir calls, the first at offset 0 and
   * the second at the first one's last cookie, reply: the first two pages
   * of the chain, numbered on across the calls.
   */
  lemma {:induction false} ReaddirTwice(ps: seq<Part>, room: nat, r1: DirReply, r2: DirReply)
    requires r1 == Page(ps, 0, room, 0)
    requires |r1.entries| <= |ps| && r2 == Page(ps, |r1.entries|, room, |r1.entries|)
    ensures |r1.entries| == PageCount(ps, 0, room)
    ensures |r1.entries| + |r2.entries| <= ChainEnd(ps, 0, room)
    ensures r2.entries == [] <==> |r1.entries| == ChainEnd(ps, 0, room)
    ensures forall j :: 0 <= j < |r1.entries + r2.entries| ==>
      (r1.entries + r2.entries)[j] == DirEntry(ps[j].name, PartIno(j), S_IFREG, j + 1)
  {
    TwoPagesNumbered(ps, room);
    ChainTwoPages(ps, 0, room);
  }
}
