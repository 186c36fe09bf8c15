/**
 * Paging of split-mode directory listings (main.c, splitfs_readdir): each
 * call packs entries into the caller's buffer, in table order, and stops at
 * the first entry that does not fit.
 */
module Directory {
  import opened Common
  import opened PartTable

  /** One entry handed to fuse_add_direntry: name, inode, st_mode and the offset cookie. */
  datatype DirEntry = DirEntry(name: string, ino: Inode, mode: nat, off: nat)

  /** The number of bytes character `c` takes in UTF-8. */
  function Utf8Width(c: char): (w: nat)
    ensures 1 <= w <= 4
    ensures w == 1 <==> c as int < 0x80
  {
    if c as int < 0x80 then 1
    else if c as int < 0x800 then 2
    else if c as int < 0x10000 then 3
    else 4
  }

  /** The length of `s` in UTF-8 bytes: what strlen gives for the name. */
  function Utf8Length(s: string): nat
  {
    Utf8LengthFrom(s, 0)
  }

  /** The UTF-8 length of the characters of `s` from index `i` on. */
  function Utf8LengthFrom(s: string, i: nat): nat
    requires i <= |s|
    decreases |s| - i
  {
    if i == |s| then 0 else Utf8Width(s[i]) + Utf8LengthFrom(s, i + 1)
  }

  /** A name of n characters takes n to 4n bytes in UTF-8. */
  lemma {:induction false} Utf8LengthBounds(s: string)
    ensures |s| <= Utf8Length(s) <= 4 * |s|
  {
    Utf8LengthFromBounds(s, 0);
  }

  lemma {:induction false} Utf8LengthFromBounds(s: string, i: nat)
    requires i <= |s|
    ensures |s| - i <= Utf8LengthFrom(s, i) <= 4 * (|s| - i)
    decreases |s| - i
  {
    if i < |s| {
      Utf8LengthFromBounds(s, i + 1);
    }
  }

  /** A name of ASCII characters takes one byte per character; any other character adds bytes. */
  lemma {:induction false} Utf8LengthAscii(s: string)
    ensures Utf8Length(s) == |s| <==> forall k :: 0 <= k < |s| ==> s[k] as int < 0x80
  {
    Utf8LengthFromAscii(s, 0);
  }

  lemma {:induction false} Utf8LengthFromAscii(s: string, i: nat)
    requires i <= |s|
    ensures Utf8LengthFrom(s, i) == |s| - i <==> forall k :: i <= k < |s| ==> s[k] as int < 0x80
    decreases |s| - i
  {
    if i < |s| {
      Utf8LengthFromAscii(s, i + 1);
      Utf8LengthFromBounds(s, i + 1);
    }
  }

  /**
   * The space one entry takes in the reply (fuse_dirent_size): a 24-byte
   * header (inode, offset, name length, type) and the name's bytes,
   * rounded up to the next multiple of 8 bytes.
   */
  function DirentSize(name: string): (n: nat)
    ensures 24 + Utf8Length(name) <= n < 24 + Utf8Length(name) + 8 && n % 8 == 0
  {
    (24 + Utf8Length(name) + 7) / 8 * 8
  }

  /** Bytes taken by the entries of `parts`. */
  function EntryBytes(parts: seq<Part>): nat
  {
    if parts == [] then 0 else DirentSize(parts[0].name) + EntryBytes(parts[1..])
  }

  /** Taking one more entry adds its size. */
  lemma {:induction false} EntryBytesStep(parts: seq<Part>, s: nat, k: nat)
    requires s <= k < |parts|
    ensures EntryBytes(parts[s..k + 1]) == EntryBytes(parts[s..k]) + DirentSize(parts[k].name)
  {
    EntryBytesAppend(parts[s..k], [parts[k]]);
    assert parts[s..k + 1] == parts[s..k] + [parts[k]];
  }

  lemma {:induction false} EntryBytesAppend(a: seq<Part>, b: seq<Part>)
    ensures EntryBytes(a + b) == EntryBytes(a) + EntryBytes(b)
    decreases |a|
  {
    if a == [] {
      assert a + b == b;
    } else {
      assert (a + b)[1..] == a[1..] + b;
      EntryBytesAppend(a[1..], b);
    }
  }

  /**
   * The number of entries one readdir call emits when its cursor is at `c`
   * and its buffer holds `room` bytes: entries are taken in order while the
   * next one fits.
   */
  function PageCount(parts: seq<Part>, c: nat, room: nat): (n: nat)
    requires c <= |parts|
    ensures c + n <= |parts|
    decreases |parts| - c
  {
    if c == |parts| || DirentSize(parts[c].name) > room then 0
    else 1 + PageCount(parts, c + 1, room - DirentSize(parts[c].name))
  }

  /**
   * A page holds as many entries as fit and no more: its entries fit in the
   * buffer, and unless it reaches the end of the table the next entry
   * would not have fitted.
   */
  lemma {:induction false} PageCountFits(parts: seq<Part>, c: nat, room: nat)
    requires c <= |parts|
    ensures EntryBytes(parts[c..c + PageCount(parts, c, room)]) <= room
    ensures c + PageCount(parts, c, room) < |parts| ==>
      EntryBytes(parts[c..c + PageCount(parts, c, room)]) + DirentSize(parts[c + PageCount(parts, c, room)].name) > room
    decreases |parts| - c
  {
    if c < |parts| && DirentSize(parts[c].name) <= room {
      var m := PageCount(parts, c + 1, room - DirentSize(parts[c].name));
      PageCountFits(parts, c + 1, room - DirentSize(parts[c].name));
      assert parts[c..c + 1 + m][1..] == parts[c + 1..c + 1 + m];
    }
  }

  /**
   * The entries of a page of `n` parts from index `c`, built one entry at a
   * time as readdir adds them; cookies count on from `off`.
   */
  function PageEntries(parts: seq<Part>, c: nat, n: nat, off: nat): (r: seq<DirEntry>)
    requires c + n <= |parts|
    ensures |r| == n
  {
    if n == 0 then []
    else PageEntries(parts, c, n - 1, off) + [DirEntry(parts[c + n - 1].name, PartIno(c + n - 1), S_IFREG, off + n)]
  }

  /** Entry j of a page names part c + j, by its index, with cookie off + j + 1. */
  lemma {:induction false} PageEntriesAt(parts: seq<Part>, c: nat, n: nat, off: nat, j: nat)
    requires c + n <= |parts| && j < n
    ensures PageEntries(parts, c, n, off)[j] == DirEntry(parts[c + j].name, PartIno(c + j), S_IFREG, off + j + 1)
    decreases n
  {
    if j < n - 1 {
      PageEntriesAt(parts, c, n - 1, off, j);
    }
  }

  /** One more entry at the end of a page. */
  lemma {:induction false} PageEntriesStep(parts: seq<Part>, c: nat, n: nat, off: nat)
    requires c + n < |parts|
    ensures PageEntries(parts, c, n + 1, off)
      == PageEntries(parts, c, n, off) + [DirEntry(parts[c + n].name, PartIno(c + n), S_IFREG, off + n + 1)]
  {
  }

  /**
   * The page is the run that readdir's loop packs: when the entries from
   * `c` up to `k` fit in `room` bytes, and either the table ends at `k` or
   * entry `k` would overflow, the page from `c` holds exactly those
   * entries.
   */
  lemma {:induction false} PageCountExact(parts: seq<Part>, c: nat, room: nat, k: nat)
    requires c <= k <= |parts| && EntryBytes(parts[c..k]) <= room
    requires k == |parts| || EntryBytes(parts[c..k]) + DirentSize(parts[k].name) > room
    ensures PageCount(parts, c, room) == k - c
    decreases k - c
  {
    if k == c {
      assert parts[c..k] == [];
    } else {
      var d := DirentSize(parts[c].name);
      assert parts[c..k][0] == parts[c] && parts[c..k][1..] == parts[c + 1..k];
      assert EntryBytes(parts[c..k]) == d + EntryBytes(parts[c + 1..k]);
      PageCountExact(parts, c + 1, room - d, k);
    }
  }

  /** fuse_reply_buf for a directory: the entries packed and the byte count sent. */
  datatype DirReply = DirReply(entries: seq<DirEntry>, bytes: nat)

  /**
   * The reply of one split-mode readdir call whose cursor is at `c`: the
   * page of entries from `c`, with cookies counting on from `off`.
   */
  function Page(parts: seq<Part>, c: nat, room: nat, off: nat): DirReply
    requires c <= |parts|
  {
    var n := PageCount(parts, c, room);
    DirReply(PageEntries(parts, c, n, off), EntryBytes(parts[c..c + n]))
  }

  /**
   * A page fits in the `room` bytes of the buffer and lists parts c,
   * c + 1, ... in order, each by its index, with the cookies following
   * `off`.
   */
  lemma {:induction false} PageShape(parts: seq<Part>, c: nat, room: nat, off: nat)
    requires c <= |parts|
    ensures Page(parts, c, room, off).bytes <= room
    ensures c + |Page(parts, c, room, off).entries| <= |parts|
    ensures forall j :: 0 <= j < |Page(parts, c, room, off).entries| ==>
      Page(parts, c, room, off).entries[j] == DirEntry(parts[c + j].name, PartIno(c + j), S_IFREG, off + j + 1)
  {
    var n := PageCount(parts, c, room);
    PageCountFits(parts, c, room);
    forall j | 0 <= j < n
      ensures PageEntries(parts, c, n, off)[j] == DirEntry(parts[c + j].name, PartIno(c + j), S_IFREG, off + j + 1)
    {
      PageEntriesAt(parts, c, n, off, j);
    }
  }

  /**
   * The reply readdir's loop builds when it stops at `k` (the table ends
   * there or entry `k` would overflow) is exactly the page from `c`.
   */
  lemma {:induction false} PageExact(parts: seq<Part>, c: nat, room: nat, off: nat, k: nat)
    requires c <= k <= |parts| && EntryBytes(parts[c..k]) <= room
    requires k == |parts| || EntryBytes(parts[c..k]) + DirentSize(parts[k].name) > room
    ensures k == c + PageCount(parts, c, room)
    ensures Page(parts, c, room, off) == DirReply(PageEntries(parts, c, k - c, off), EntryBytes(parts[c..k]))
  {
    PageCountExact(parts, c, room, k);
    assert parts[c..c + (k - c)] == parts[c..k];
  }

  /** One more part packed: the page from `start` grows by part k's entry. */
  lemma {:induction false} PageEntriesPush(parts: seq<Part>, start: nat, k: nat, off: nat)
    requires start <= k < |parts|
    ensures PageEntries(parts, start, k + 1 - start, off)
      == PageEntries(parts, start, k - start, off) + [DirEntry(parts[k].name, PartIno(k), S_IFREG, off + (k - start) + 1)]
  {
    PageEntriesStep(parts, start, k - start, off);
  }

  /**
   * The cursor a chain of readdir calls, the first of them with the cursor
   * at `c`, has reached when a call returns an empty page (which the kernel
   * reads as the end of the listing).
   */
  function ChainEnd(parts: seq<Part>, c: nat, room: nat): (e: nat)
    requires c <= |parts|
    ensures c <= e <= |parts|
    decreases |parts| - c
  {
    var n := PageCount(parts, c, room);
    if n == 0 then c else ChainEnd(parts, c + n, room)
  }

  /** The parts a chain of readdir calls from cursor `c` emits, page after page. */
  function ChainParts(parts: seq<Part>, c: nat, room: nat): seq<Part>
    requires c <= |parts|
    decreases |parts| - c
  {
    var n := PageCount(parts, c, room);
    if n == 0 then [] else parts[c..c + n] + ChainParts(parts, c + n, room)
  }

  /**
   * A chain of calls emits the parts from the cursor on in table order,
   * each exactly once, with nothing skipped, up to where it stops.
   */
  lemma {:induction false} ChainNoSkipNoDuplicate(parts: seq<Part>, c: nat, room: nat)
    requires c <= |parts|
    ensures ChainParts(parts, c, room) == parts[c..ChainEnd(parts, c, room)]
    decreases |parts| - c
  {
    var n := PageCount(parts, c, room);
    if n == 0 {
      ChainStop(parts, c, room);
    } else {
      ChainNoSkipNoDuplicate(parts, c + n, room);
      ChainStep(parts, c, room, n);
    }
  }

  /**
   * Two successive calls from cursor `c`: the second page starts where the
   * first ends, both lie inside the chain, and an empty second page means
   * the chain stops after the first.
   */
  lemma {:induction false} ChainTwoPages(parts: seq<Part>, c: nat, room: nat)
    requires c <= |parts|
    ensures var n1 := PageCount(parts, c, room);
      var n2 := PageCount(parts, c + n1, room);
      c + n1 + n2 <= ChainEnd(parts, c, room) &&
      (n2 == 0 <==> c + n1 == ChainEnd(parts, c, room))
  {
    var n1 := PageCount(parts, c, room);
    var n2 := PageCount(parts, c + n1, room);
    if n1 == 0 {
      assert ChainEnd(parts, c, room) == c;
    } else {
      assert ChainEnd(parts, c, room) == ChainEnd(parts, c + n1, room);
      if n2 > 0 {
        assert ChainEnd(parts, c + n1, room) == ChainEnd(parts, c + n1 + n2, room);
      }
    }
  }

  /**
   * The first two pages of a listing from offset 0 list consecutive parts
   * from the first, with cookies 1, 2, ... running on across the two
   * replies.
   */
  lemma {:induction false} TwoPagesNumbered(ps: seq<Part>, room: nat)
    ensures var n1 := PageCount(ps, 0, room);
      var e1 := Page(ps, 0, room, 0).entries;
      var e2 := Page(ps, n1, room, n1).entries;
      |e1| == n1 && |e2| == PageCount(ps, n1, room) &&
      forall j :: 0 <= j < |e1 + e2| ==> (e1 + e2)[j] == DirEntry(ps[j].name, PartIno(j), S_IFREG, j + 1)
  {
    var n1 := PageCount(ps, 0, room);
    var n2 := PageCount(ps, n1, room);
    var e1 := PageEntries(ps, 0, n1, 0);
    var e2 := PageEntries(ps, n1, n2, n1);
    assert Page(ps, 0, room, 0).entries == e1 && Page(ps, n1, room, n1).entries == e2;
    forall j | 0 <= j < n1
      ensures e1[j] == DirEntry(ps[j].name, PartIno(j), S_IFREG, j + 1)
    {
      PageEntriesAt(ps, 0, n1, 0, j);
    }
    forall j | 0 <= j < n2
      ensures e2[j] == DirEntry(ps[n1 + j].name, PartIno(n1 + j), S_IFREG, n1 + j + 1)
    {
      PageEntriesAt(ps, n1, n2, n1, j);
    }
    EntriesConcat(ps, e1, e2);
  }

  /** Entries numbered from 1 by part, followed by entries numbered on from there, stay numbered by part. */
  lemma {:induction false} EntriesConcat(ps: seq<Part>, e1: seq<DirEntry>, e2: seq<DirEntry>)
    requires |e1| + |e2| <= |ps|
    requires forall j :: 0 <= j < |e1| ==> e1[j] == DirEntry(ps[j].name, PartIno(j), S_IFREG, j + 1)
    requires forall j :: 0 <= j < |e2| ==>
      e2[j] == DirEntry(ps[|e1| + j].name, PartIno(|e1| + j), S_IFREG, |e1| + j + 1)
    ensures forall j :: 0 <= j < |e1 + e2| ==> (e1 + e2)[j] == DirEntry(ps[j].name, PartIno(j), S_IFREG, j + 1)
  {
    forall j | 0 <= j < |e1 + e2|
      ensures (e1 + e2)[j] == DirEntry(ps[j].name, PartIno(j), S_IFREG, j + 1)
    {
      if j >= |e1| {
        assert (e1 + e2)[j] == e2[j - |e1|];
      }
    }
  }

  /** A call that emits an empty page ends the chain where it stands. */
  lemma {:induction false} ChainStop(parts: seq<Part>, c: nat, room: nat)
    requires c <= |parts| && PageCount(parts, c, room) == 0
    ensures ChainParts(parts, c, room) == parts[c..ChainEnd(parts, c, room)] == []
  {
    assert ChainEnd(parts, c, room) == c;
  }

  /**
   * A call that emits a non-empty page of `n` entries hands the rest of
   * the chain to the next call, so a chain that is contiguous from there
   * on is contiguous from `c`.
   */
  lemma {:induction false} ChainStep(parts: seq<Part>, c: nat, room: nat, n: nat)
    requires c <= |parts| && n == PageCount(parts, c, room) && n > 0
    requires ChainParts(parts, c + n, room) == parts[c + n..ChainEnd(parts, c + n, room)]
    ensures ChainParts(parts, c, room) == parts[c..ChainEnd(parts, c, room)]
  {
    var e := ChainEnd(parts, c + n, room);
    var rest := ChainParts(parts, c + n, room);
    assert ChainEnd(parts, c, room) == e;
    assert ChainParts(parts, c, room) == parts[c..c + n] + rest;
    SliceJoin(parts, c, c + n, e);
  }

  lemma {:induction false} SliceJoin(parts: seq<Part>, a: nat, b: nat, c: nat)
    requires a <= b <= c <= |parts|
    ensures parts[a..c] == parts[a..b] + parts[b..c]
  {
  }

  /**
   * When every entry fits in the buffer on its own, the chain of calls
   * starting at offset 0 lists the whole table.
   */
  lemma {:induction false} ChainComplete(parts: seq<Part>, c: nat, room: nat)
    requires c <= |parts|
    requires forall k :: 0 <= k < |parts| ==> DirentSize(parts[k].name) <= room
    ensures ChainEnd(parts, c, room) == |parts|
    ensures ChainParts(parts, c, room) == parts[c..]
    decreases |parts| - c
  {
    ChainNoSkipNoDuplicate(parts, c, room);
    var n := PageCount(parts, c, room);
    if c < |parts| {
      assert parts[c..c + 1] == [parts[c]];
      assert n > 0;
      ChainComplete(parts, c + n, room);
    }
  }
}
