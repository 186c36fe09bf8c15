/**
 * Read routing of main.c (splitfs_read): positioned reads on the stored
 * files, the absolute offset of a split-mode part, and the join-mode search
 * for the first part followed by the walk across part boundaries.
 */
module Routing {
  import opened Common
  import opened PartTable

  /** What a descriptor or a path gives access to: bytes, or a file whose reads fail. */
  datatype Stored = Readable(data: seq<byte>) | Unreadable(errno: nat)

  datatype ReadResult = ReadOk(bytes: seq<byte>) | ReadFailed(errno: nat)

  /** The reply a read request gets; NoReply when the callback returns without replying. */
  datatype ReadReply = Data(bytes: seq<byte>) | Error(errno: nat) | NoReply

  /** The bytes of `d` from offset `off` on (none past the end). */
  function From(d: seq<byte>, off: nat): seq<byte>
  {
    d[Min(off, |d|)..]
  }

  /** The first `n` bytes of `s`, or all of them if there are fewer. */
  function Prefix(s: seq<byte>, n: nat): (p: seq<byte>)
    ensures p <= s && |p| == Min(n, |s|)
  {
    s[..Min(n, |s|)]
  }

  /**
   * pread(fd, buf, size, off) on a regular file: up to `size` bytes from
   * `off`, fewer only when the file ends first; an unreadable file fails
   * with its errno.
   */
  function Pread(f: Stored, size: nat, off: nat): (r: ReadResult)
    ensures r.ReadFailed? <==> f.Unreadable?
    ensures r.ReadFailed? ==> r.errno == f.errno
    ensures r.ReadOk? ==> |r.bytes| <= size && r.bytes <= From(f.data, off)
    ensures r.ReadOk? ==> |r.bytes| == size || r.bytes == From(f.data, off)
  {
    match f
    case Unreadable(e) => ReadFailed(e)
    case Readable(d) => ReadOk(Prefix(From(d, off), size))
  }

  /** fuse_reply_buf with what pread returned, or fuse_reply_err with its errno. */
  function ReplyOf(r: ReadResult): ReadReply
  {
    match r
    case ReadOk(b) => Data(b)
    case ReadFailed(e) => Error(e)
  }

  // ---------------------------------------------------------------------
  // Split mode

  /**
   * The reply of a split-mode read of part `ino` at local offset `off`: one
   * pread on the source at the part's absolute offset, the sum of the
   * lengths of the parts before it, passed through as it came. A handle
   * that is no part of the table gets no reply at all.
   */
  function SplitRead(parts: seq<Part>, source: Stored, ino: Inode, size: nat, off: nat): ReadReply
  {
    if ino.PartIno? && ino.index < |parts|
    then ReplyOf(Pread(source, size, SumLens(parts[..ino.index]) + off))
    else NoReply
  }

  /**
   * Reading split-mode part k of a readable source returns the source's
   * bytes from k * 100 MiB plus the local offset on: `size` of them, fewer
   * only at the end of the source. The read is not clipped at the end of
   * the part, so it runs on into the next part's bytes.
   */
  lemma {:induction false} SplitReadSource(d: seq<byte>, k: nat, size: nat, off: nat)
    requires k < |SplitTable(|d|)|
    ensures SplitRead(SplitTable(|d|), Readable(d), PartIno(k), size, off)
      == Data(Prefix(From(d, k * PART_SIZE_BYTES + off), size))
  {
    SplitTableOffset(|d|, k);
  }

  /**
   * A read inside split-mode part k returns exactly `size` source bytes at
   * k * 100 MiB plus the local offset.
   */
  lemma {:induction false} SplitReadChunk(d: seq<byte>, k: nat, size: nat, off: nat)
    requires k < |SplitTable(|d|)|
    requires off + size <= SplitTable(|d|)[k].len
    ensures var o := k * PART_SIZE_BYTES + off;
      o + size <= |d| &&
      SplitRead(SplitTable(|d|), Readable(d), PartIno(k), size, off) == Data(d[o..o + size])
  {
    var t := SplitTable(|d|);
    var o := k * PART_SIZE_BYTES + off;
    SplitTableOffset(|d|, k);
    SumLensPrefixStep(t, k);
    SumLensSplit(t, k + 1);
    SplitFromSum(|d|, 0, PartName);
    assert o + size <= |d|;
    SplitReadSource(d, k, size, off);
    assert From(d, o) == d[o..];
    PrefixOfSuffix(d, o, size);
  }

  // ---------------------------------------------------------------------
  // Join mode: finding the first part

  /**
   * The search of the join-mode read: walk the parts from `i`, taking each
   * part's length off `off` while `off` is strictly greater than it. The
   * result is the part where the read starts and the offset inside it;
   * None is the ERANGE reply.
   */
  function Locate(parts: seq<Part>, i: nat, off: nat): (r: Option<(nat, nat)>)
    requires i <= |parts|
    ensures r.None? <==> i == |parts| || off > SumLens(parts[i..])
    ensures r.Some? ==> i <= r.value.0 < |parts| && r.value.1 <= parts[r.value.0].len
    ensures r.Some? ==> SumLens(parts[i..r.value.0]) + r.value.1 == off
    ensures r.Some? ==> forall j :: i < j <= r.value.0 ==> off > SumLens(parts[i..j])
    decreases |parts| - i
  {
    if i == |parts| then None
    else
      assert parts[i..][1..] == parts[i + 1..];
      if off > parts[i].len then
        var r := Locate(parts, i + 1, off - parts[i].len);
        if r.Some? then
          assert parts[i..r.value.0][1..] == parts[i + 1..r.value.0];
          assert forall j :: i < j <= r.value.0 ==> off > SumLens(parts[i..j]) by {
            forall j | i < j <= r.value.0
              ensures off > SumLens(parts[i..j])
            {
              assert parts[i..j][1..] == parts[i + 1..j];
            }
          }
          r
        else r
      else
        assert parts[i..i] == [];
        Some((i, off))
  }

  /**
   * The search from the first part: ERANGE exactly when there is no part
   * or `off` lies strictly past the total, so an offset equal to the total
   * is located (in the last part, at its end).
   */
  lemma {:induction false} LocateRange(parts: seq<Part>, off: nat)
    ensures Locate(parts, 0, off).None? <==> parts == [] || off > SumLens(parts)
    ensures Locate(parts, 0, off).Some? ==>
      SumLens(parts[..Locate(parts, 0, off).value.0]) + Locate(parts, 0, off).value.1 == off
  {
    assert parts[0..] == parts;
    var r := Locate(parts, 0, off);
    if r.Some? {
      assert parts[0..r.value.0] == parts[..r.value.0];
    }
  }

  // ---------------------------------------------------------------------
  // Join mode: reading across parts

  /**
   * The walk of the join-mode read from part `i` at local offset `local`
   * with `size` bytes still wanted: open the part's file by name, pread,
   * stop when the read filled the request, else go on at offset 0 of the
   * next part. A failed open or read loses everything (None); Some([])
   * means nothing was read.
   */
  function Gather(parts: seq<Part>, disk: map<string, Stored>, i: nat, local: nat, size: nat): Option<seq<byte>>
    requires i <= |parts|
    decreases |parts| - i
  {
    if size == 0 || i == |parts| then Some([])
    else if parts[i].name !in disk then None
    else match Pread(disk[parts[i].name], size, local)
      case ReadFailed(_) => None
      case ReadOk(b) =>
        if |b| == size then Some(b)
        else match Gather(parts, disk, i + 1, 0, size - |b|)
          case None => None
          case Some(rest) => Some(b + rest)
  }

  /** Bytes collected so far in front of what the rest of the walk returns; a failure stays one. */
  function Prepend(acc: seq<byte>, g: Option<seq<byte>>): Option<seq<byte>>
  {
    match g
    case None => None
    case Some(b) => Some(acc + b)
  }

  /** The reply of a join-mode read of `size` bytes at `off` of the joined file. */
  function JoinRead(parts: seq<Part>, disk: map<string, Stored>, size: nat, off: nat): ReadReply
  {
    match Locate(parts, 0, off)
    case None => Error(ERANGE)
    case Some((i, local)) =>
      match Gather(parts, disk, i, local, size)
      case None => Error(EIO)
      case Some(b) => if b == [] then Error(EIO) else Data(b)
  }

  lemma {:induction false} JoinReadOf(parts: seq<Part>, disk: map<string, Stored>, size: nat, off: nat, i: nat, local: nat, b: seq<byte>)
    requires Locate(parts, 0, off) == Some((i, local)) && i <= |parts|
    requires Gather(parts, disk, i, local, size) == Some(b)
    ensures JoinRead(parts, disk, size, off) == if b == [] then Error(EIO) else Data(b)
  {
  }

  /**
   * One step of the join-mode read loop: a short read of part `i` keeps the
   * bytes read so far in front of what the walk from the next part returns.
   */
  lemma {:induction false} GatherShortStep(parts: seq<Part>, disk: map<string, Stored>, i: nat, local: nat, size: nat,
                        acc: seq<byte>, b: seq<byte>)
    requires i < |parts| && size > 0 && parts[i].name in disk
    requires Pread(disk[parts[i].name], size, local) == ReadOk(b) && |b| != size
    ensures |b| < size
    ensures Prepend(acc, Gather(parts, disk, i, local, size))
      == Prepend(acc + b, Gather(parts, disk, i + 1, 0, size - |b|))
  {
    var rest := Gather(parts, disk, i + 1, 0, size - |b|);
    if rest.Some? {
      assert acc + (b + rest.value) == (acc + b) + rest.value;
    }
  }

  /** The bytes part `i`'s file holds from `local` on; none when it cannot be read. */
  function Avail(parts: seq<Part>, disk: map<string, Stored>, i: nat, local: nat): seq<byte>
    requires i < |parts|
  {
    var name := parts[i].name;
    if name in disk && disk[name].Readable? then From(disk[name].data, local) else []
  }

  /** The concatenation of the parts' files, from part `i` at `local` on. */
  function Stream(parts: seq<Part>, disk: map<string, Stored>, i: nat, local: nat): seq<byte>
    requires i <= |parts|
    decreases |parts| - i
  {
    if i == |parts| then [] else Avail(parts, disk, i, local) + Stream(parts, disk, i + 1, 0)
  }

  /** Every part's file opens and reads, from part `i` on. */
  predicate Reachable(parts: seq<Part>, disk: map<string, Stored>, i: nat)
  {
    forall j :: i <= j < |parts| ==> parts[j].name in disk && disk[parts[j].name].Readable?
  }

  /**
   * What the walk returns, when it returns anything, is the start of the
   * concatenated files from the located position: at most `size` bytes,
   * fewer only when the files run out.
   */
  lemma {:induction false} GatherIsPrefix(parts: seq<Part>, disk: map<string, Stored>, i: nat, local: nat, size: nat)
    requires i <= |parts|
    requires Gather(parts, disk, i, local, size).Some?
    ensures Gather(parts, disk, i, local, size).value == Prefix(Stream(parts, disk, i, local), size)
    decreases |parts| - i
  {
    if size > 0 && i < |parts| {
      var a := Avail(parts, disk, i, local);
      var s := Stream(parts, disk, i + 1, 0);
      var b := Pread(disk[parts[i].name], size, local).bytes;
      assert b <= a;
      if |b| < size {
        assert b == a;
        GatherIsPrefix(parts, disk, i + 1, 0, size - |b|);
        assert Prefix(a + s, size) == a + Prefix(s, size - |a|);
      } else {
        assert Prefix(a + s, size) == b;
      }
    }
  }

  /** When every file from part `i` on can be read, the walk does not fail. */
  lemma {:induction false} GatherSucceeds(parts: seq<Part>, disk: map<string, Stored>, i: nat, local: nat, size: nat)
    requires i <= |parts| && Reachable(parts, disk, i)
    ensures Gather(parts, disk, i, local, size).Some?
    decreases |parts| - i
  {
    if size > 0 && i < |parts| {
      var b := Pread(disk[parts[i].name], size, local).bytes;
      if |b| < size {
        GatherSucceeds(parts, disk, i + 1, 0, size - |b|);
      }
    }
  }

  /**
   * Whatever the files hold, a join-mode read that answers with data
   * answers with one byte or more and at most `size`, and they are the
   * start of the parts' files read on from the located part and offset.
   */
  lemma {:induction false} JoinReadData(parts: seq<Part>, disk: map<string, Stored>, size: nat, off: nat)
    requires JoinRead(parts, disk, size, off).Data?
    ensures Locate(parts, 0, off).Some?
    ensures 0 < |JoinRead(parts, disk, size, off).bytes| <= size
    ensures JoinRead(parts, disk, size, off).bytes
      == Prefix(Stream(parts, disk, Locate(parts, 0, off).value.0, Locate(parts, 0, off).value.1), size)
  {
    var loc := Locate(parts, 0, off).value;
    GatherIsPrefix(parts, disk, loc.0, loc.1, size);
  }

  /** The bytes the files of parts i to j - 1 hold, from `local` in part i on. */
  function StreamTo(parts: seq<Part>, disk: map<string, Stored>, i: nat, local: nat, j: nat): seq<byte>
    requires i <= j <= |parts|
    decreases j - i
  {
    if i == j then [] else Avail(parts, disk, i, local) + StreamTo(parts, disk, i + 1, 0, j)
  }

  /**
   * A failed open or pread anywhere along the walk loses the bytes read
   * from the parts before it: the whole walk fails.
   */
  lemma {:induction false} GatherDropsOnFailure(parts: seq<Part>, disk: map<string, Stored>, i: nat, local: nat, size: nat, j: nat)
    requires i <= j < |parts|
    requires parts[j].name !in disk || disk[parts[j].name].Unreadable?
    requires |StreamTo(parts, disk, i, local, j)| < size
    ensures Gather(parts, disk, i, local, size).None?
    decreases j - i
  {
    if i < j {
      if parts[i].name in disk && disk[parts[i].name].Readable? {
        var b := Pread(disk[parts[i].name], size, local).bytes;
        assert b == Avail(parts, disk, i, local);
        GatherDropsOnFailure(parts, disk, i + 1, 0, size - |b|, j);
      }
    }
  }

  /**
   * When the read reaches part j, whose file cannot be opened or read,
   * before it has collected `size` bytes, the reply is EIO: the bytes
   * already read from the parts before j are not sent, whatever the parts
   * after j hold.
   */
  lemma {:induction false} JoinReadDropsOnFailure(parts: seq<Part>, disk: map<string, Stored>, size: nat, off: nat, j: nat)
    requires Locate(parts, 0, off).Some? && Locate(parts, 0, off).value.0 <= j < |parts|
    requires parts[j].name !in disk || disk[parts[j].name].Unreadable?
    requires |StreamTo(parts, disk, Locate(parts, 0, off).value.0, Locate(parts, 0, off).value.1, j)| < size
    ensures JoinRead(parts, disk, size, off) == Error(EIO)
  {
    var loc := Locate(parts, 0, off).value;
    GatherDropsOnFailure(parts, disk, loc.0, loc.1, size, j);
  }

  /**
   * Five readable bytes, a file that cannot be opened, then a hundred
   * readable bytes: a read of ten bytes at offset 0 is EIO, although the
   * files after the failing one hold more than ten bytes.
   */
  lemma {:induction false} JoinReadFailureMidway(a: seq<byte>, c: seq<byte>)
    requires |a| == 5 && |c| == 100
    ensures JoinRead([Part("a", 5), Part("b", 7), Part("c", 100)], map["a" := Readable(a), "c" := Readable(c)], 10, 0)
      == Error(EIO)
  {
    var parts := [Part("a", 5), Part("b", 7), Part("c", 100)];
    var disk := map["a" := Readable(a), "c" := Readable(c)];
    assert Locate(parts, 0, 0) == Some((0, 0));
    assert Avail(parts, disk, 0, 0) == a;
    assert StreamTo(parts, disk, 1, 0, 1) == [];
    assert StreamTo(parts, disk, 0, 0, 1) == a;
    JoinReadDropsOnFailure(parts, disk, 10, 0, 1);
  }

  // ---------------------------------------------------------------------
  // Join mode: the reply against the joined file

  /** Every part's file reads, and holds as many bytes as the table recorded for it. */
  predicate Consistent(parts: seq<Part>, disk: map<string, Stored>)
  {
    Reachable(parts, disk, 0) &&
    forall j :: 0 <= j < |parts| ==> |disk[parts[j].name].data| == parts[j].len
  }

  /** The joined file: the parts' files one after the other. */
  function Whole(parts: seq<Part>, disk: map<string, Stored>): seq<byte>
  {
    Stream(parts, disk, 0, 0)
  }

  lemma {:induction false} StreamLength(parts: seq<Part>, disk: map<string, Stored>, i: nat)
    requires i <= |parts| && Consistent(parts, disk)
    ensures |Stream(parts, disk, i, 0)| == SumLens(parts[i..])
    decreases |parts| - i
  {
    if i < |parts| {
      assert parts[i..][1..] == parts[i + 1..];
      StreamLength(parts, disk, i + 1);
    }
  }

  lemma {:induction false} StreamStep(parts: seq<Part>, disk: map<string, Stored>, i: nat, local: nat)
    requires i < |parts|
    ensures Stream(parts, disk, i, local) == Avail(parts, disk, i, local) + Stream(parts, disk, i + 1, 0)
  {
  }

  lemma {:induction false} DropFromConcat(a: seq<byte>, b: seq<byte>, k: nat)
    requires k <= |a|
    ensures (a + b)[k..] == a[k..] + b
  {
  }

  lemma {:induction false} DropTwice(s: seq<byte>, a: nat, b: nat)
    requires a + b <= |s|
    ensures s[a..][b..] == s[a + b..]
  {
  }

  /** Starting inside part i is starting at its beginning and dropping `local` bytes. */
  lemma {:induction false} StreamInsidePart(parts: seq<Part>, disk: map<string, Stored>, i: nat, local: nat)
    requires i < |parts| && Consistent(parts, disk) && local <= parts[i].len
    ensures local <= |Stream(parts, disk, i, 0)|
    ensures Stream(parts, disk, i, local) == Stream(parts, disk, i, 0)[local..]
  {
    assert parts[i].name in disk && disk[parts[i].name].Readable?;
    var d := disk[parts[i].name].data;
    assert |d| == parts[i].len;
    StreamStep(parts, disk, i, local);
    StreamStep(parts, disk, i, 0);
    DropFromConcat(d, Stream(parts, disk, i + 1, 0), local);
  }

  /**
   * Dropping the lengths of parts a to b - 1 from the files read from part
   * a on leaves the files read from part b on.
   */
  lemma {:induction false} StreamDrop(parts: seq<Part>, disk: map<string, Stored>, a: nat, b: nat)
    requires a <= b <= |parts| && Consistent(parts, disk)
    ensures SumLens(parts[a..b]) <= |Stream(parts, disk, a, 0)|
    ensures Stream(parts, disk, a, 0)[SumLens(parts[a..b])..] == Stream(parts, disk, b, 0)
    decreases b - a
  {
    if a == b {
      assert parts[a..b] == [];
    } else {
      var d := disk[parts[a].name].data;
      var rest := Stream(parts, disk, a + 1, 0);
      assert d[0..] == d;
      StreamStep(parts, disk, a, 0);
      assert Avail(parts, disk, a, 0) == d;
      assert parts[a..b][1..] == parts[a + 1..b];
      var x := SumLens(parts[a + 1..b]);
      assert SumLens(parts[a..b]) == |d| + x;
      StreamDrop(parts, disk, a + 1, b);
      assert (d + rest)[|d| + x..] == rest[x..];
    }
  }

  /** Part i's bytes start in the joined file at the sum of the earlier parts' lengths. */
  lemma {:induction false} StreamAtOffset(parts: seq<Part>, disk: map<string, Stored>, i: nat)
    requires i <= |parts| && Consistent(parts, disk)
    ensures SumLens(parts[..i]) <= |Whole(parts, disk)| &&
      Whole(parts, disk)[SumLens(parts[..i])..] == Stream(parts, disk, i, 0)
  {
    StreamDrop(parts, disk, 0, i);
    assert parts[0..i] == parts[..i];
  }

  /** Reading from byte `local` of part i is reading the joined file from that part's offset plus `local`. */
  lemma {:induction false} StreamAtLocal(parts: seq<Part>, disk: map<string, Stored>, i: nat, local: nat)
    requires i < |parts| && Consistent(parts, disk) && local <= parts[i].len
    ensures SumLens(parts[..i]) + local <= |Whole(parts, disk)|
    ensures Stream(parts, disk, i, local) == Whole(parts, disk)[SumLens(parts[..i]) + local..]
  {
    StreamAtOffset(parts, disk, i);
    StreamInsidePart(parts, disk, i, local);
    DropTwice(Whole(parts, disk), SumLens(parts[..i]), local);
  }

  /**
   * ERANGE comes only from the search: exactly when there is no part or the
   * offset lies strictly past the total length. A request for 0 bytes that
   * is not out of range reads nothing and gets EIO.
   */
  lemma {:induction false} JoinReadRange(parts: seq<Part>, disk: map<string, Stored>, size: nat, off: nat)
    ensures JoinRead(parts, disk, size, off) == Error(ERANGE) <==> parts == [] || off > SumLens(parts)
    ensures size == 0 && !(parts == [] || off > SumLens(parts)) ==> JoinRead(parts, disk, size, off) == Error(EIO)
  {
    LocateRange(parts, off);
  }

  /** From the located part and offset on, the parts' files are the joined file from `off` on. */
  lemma {:induction false} LocatedStream(parts: seq<Part>, disk: map<string, Stored>, off: nat)
    requires Consistent(parts, disk) && parts != [] && off <= SumLens(parts)
    ensures Locate(parts, 0, off).Some?
    ensures off <= |Whole(parts, disk)|
    ensures Stream(parts, disk, Locate(parts, 0, off).value.0, Locate(parts, 0, off).value.1)
      == Whole(parts, disk)[off..]
  {
    LocateRange(parts, off);
    var loc := Locate(parts, 0, off).value;
    StreamAtLocal(parts, disk, loc.0, loc.1);
  }

  /**
   * When the files are as the table recorded them, a join-mode read of
   * `size` > 0 bytes at an offset below the total returns the bytes of the
   * joined file from that offset: `size` of them, or all up to the end.
   */
  lemma {:induction false} JoinReadCorrect(parts: seq<Part>, disk: map<string, Stored>, size: nat, off: nat)
    requires Consistent(parts, disk) && 0 < size && off < SumLens(parts)
    ensures |Whole(parts, disk)| == SumLens(parts)
    ensures JoinRead(parts, disk, size, off)
        == Data(Whole(parts, disk)[off..Min(off + size, |Whole(parts, disk)|)])
  {
    StreamLength(parts, disk, 0);
    assert parts[0..] == parts;
    LocatedStream(parts, disk, off);
    var w := Whole(parts, disk);
    var loc := Locate(parts, 0, off).value;
    var i, local := loc.0, loc.1;
    GatherSucceeds(parts, disk, i, local, size);
    GatherIsPrefix(parts, disk, i, local, size);
    var g := Gather(parts, disk, i, local, size).value;
    PrefixOfSuffix(w, off, size);
    assert g == w[off..Min(off + size, |w|)] && g != [];
    JoinReadOf(parts, disk, size, off, i, local, g);
  }

  lemma {:induction false} PrefixOfSuffix(w: seq<byte>, off: nat, size: nat)
    requires off <= |w|
    ensures Prefix(w[off..], size) == w[off..Min(off + size, |w|)]
  {
  }

  /**
   * An offset equal to the total length passes the search, reads nothing
   * and is answered EIO, not ERANGE.
   */
  lemma {:induction false} JoinReadAtEnd(parts: seq<Part>, disk: map<string, Stored>, size: nat)
    requires Consistent(parts, disk) && parts != []
    ensures JoinRead(parts, disk, size, SumLens(parts)) == Error(EIO)
  {
    var off := SumLens(parts);
    StreamLength(parts, disk, 0);
    assert parts[0..] == parts;
    LocatedStream(parts, disk, off);
    var loc := Locate(parts, 0, off).value;
    GatherSucceeds(parts, disk, loc.0, loc.1, size);
    GatherIsPrefix(parts, disk, loc.0, loc.1, size);
    var g := Gather(parts, disk, loc.0, loc.1, size).value;
    assert g == [];
    JoinReadOf(parts, disk, size, off, loc.0, loc.1, g);
  }

  /**
   * Two files of 10 bytes joined: reading 10 bytes at offset 5 returns the
   * last 5 bytes of the first and the first 5 bytes of the second.
   */
  lemma {:induction false} JoinReadAcrossBoundary(a: seq<byte>, b: seq<byte>)
    requires |a| == 10 && |b| == 10
    ensures JoinRead([Part("a", 10), Part("b", 10)], map["a" := Readable(a), "b" := Readable(b)], 10, 5)
      == Data(a[5..] + b[..5])
  {
    var parts := [Part("a", 10), Part("b", 10)];
    var disk := map["a" := Readable(a), "b" := Readable(b)];
    assert parts[0].name in disk && parts[1].name in disk;
    assert Consistent(parts, disk);
    JoinReadCorrect(parts, disk, 10, 5);
    assert Stream(parts, disk, 2, 0) == [];
    assert Avail(parts, disk, 1, 0) == b;
    assert Avail(parts, disk, 0, 0) == a;
    assert Whole(parts, disk) == a + b;
    assert (a + b)[5..15] == a[5..] + b[..5];
  }
}
