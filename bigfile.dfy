/**
 * The Python variant's BigFile: a list of files read as one. A file is
 * its content; its size is the length of that content.
 */
module BigFile {
  import opened Common

  /** The total size of the files, summed from the first one on. */
  function Size(files: seq<seq<byte>>): nat
  {
    if files == [] then 0 else Size(files[..|files| - 1]) + |files[|files| - 1]|
  }

  /** The files' contents one after the other: the big file as it should read. */
  function Flatten(files: seq<seq<byte>>): (r: seq<byte>)
    ensures |r| == Size(files)
  {
    if files == [] then [] else Flatten(files[..|files| - 1]) + files[|files| - 1]
  }

  /** Cutting the list of files anywhere cuts the big file at the same place. */
  lemma {:induction false} FlattenSplit(files: seq<seq<byte>>, k: nat)
    requires k <= |files|
    ensures Flatten(files) == Flatten(files[..k]) + Flatten(files[k..])
    decreases |files|
  {
    if k == |files| {
      assert files[..k] == files && files[k..] == [];
    } else {
      var front := files[..|files| - 1];
      FlattenSplit(front, k);
      assert front[..k] == files[..k];
      var back := files[k..];
      assert back[..|back| - 1] == front[k..] && back[|back| - 1] == files[|files| - 1];
      assert Flatten(back) == Flatten(front[k..]) + files[|files| - 1];
    }
  }

  /**
   * The start offset of every file in the big file, then the total size:
   * 0, len0, len0+len1, ..., size.
   */
  function Offsets(files: seq<seq<byte>>): (lens: seq<nat>)
    ensures |lens| == |files| + 1 && lens[0] == 0 && lens[|files|] == Size(files)
  {
    if files == [] then [0]
    else
      var front := Offsets(files[..|files| - 1]);
      front + [front[|files| - 1] + |files[|files| - 1]|]
  }

  /** Each entry of the offset table adds the size of the file before it. */
  lemma {:induction false} OffsetsStep(files: seq<seq<byte>>, k: nat)
    requires k < |files|
    ensures Offsets(files)[k + 1] == Offsets(files)[k] + |files[k]|
    decreases |files|
  {
    if k < |files| - 1 {
      var front := files[..|files| - 1];
      OffsetsStep(front, k);
      assert front[k] == files[k];
    }
  }

  /** The offset table never decreases. */
  lemma {:induction false} OffsetsMonotone(files: seq<seq<byte>>, a: nat, b: nat)
    requires a <= b <= |files|
    ensures Offsets(files)[a] <= Offsets(files)[b]
    decreases b - a
  {
    if a < b {
      OffsetsMonotone(files, a, b - 1);
      OffsetsStep(files, b - 1);
    }
  }

  /** Entry j of the offset table is the size of the files before file j. */
  lemma {:induction false} OffsetsPrefix(files: seq<seq<byte>>, j: nat)
    requires j <= |files|
    ensures Offsets(files)[j] == Size(files[..j])
    decreases |files|
  {
    if j == |files| {
      assert files[..j] == files;
    } else {
      var front := files[..|files| - 1];
      OffsetsPrefix(front, j);
      assert front[..j] == files[..j];
    }
  }

  /** The table of cumulative sizes read builds first: 0, len0, len0+len1, ..., size. */
  method PrefixLens(files: seq<seq<byte>>) returns (lens: seq<nat>)
    ensures lens == Offsets(files)
  {
    lens := [0];
    var p: nat := 0;
    for j := 0 to |files|
      invariant lens == Offsets(files)[..j + 1]
      invariant p == Offsets(files)[j]
    {
      OffsetsStep(files, j);
      assert Offsets(files)[..j + 2] == Offsets(files)[..j + 1] + [Offsets(files)[j + 1]];
      p := p + |files[j]|;
      lens := lens + [p];
    }
  }

  /** File.read: seek to `pos` and read up to `length` bytes; short or empty at the end of the file. */
  function FileRead(d: seq<byte>, pos: nat, length: nat): seq<byte>
  {
    d[Min(pos, |d|)..Min(pos + length, |d|)]
  }

  /** A slice that lies inside the middle of three joined sequences is a slice of the middle one. */
  lemma {:induction false} SliceOfMiddle(a: seq<byte>, m: seq<byte>, c: seq<byte>, x: nat, y: nat)
    requires |a| <= x <= y <= |a| + |m|
    ensures (a + m + c)[x..y] == m[x - |a|..y - |a|]
  {
    assert forall k :: x <= k < y ==> (a + m + c)[k] == m[k - |a|];
  }

  /** The big file is the files before file j, then file j, then the files after it. */
  lemma {:induction false} FlattenAround(files: seq<seq<byte>>, j: nat)
    requires j < |files|
    ensures Flatten(files) == Flatten(files[..j]) + files[j] + Flatten(files[j + 1..])
  {
    FlattenSplit(files, j + 1);
    var upTo := files[..j + 1];
    assert upTo[..|upTo| - 1] == files[..j] && upTo[|upTo| - 1] == files[j];
  }

  /** The bytes of the big file between two offsets that both lie in file `j`. */
  lemma {:induction false} InsideFile(files: seq<seq<byte>>, j: nat, x: nat, y: nat)
    requires j < |files| && Offsets(files)[j] <= x <= y <= Offsets(files)[j + 1]
    ensures y <= Size(files) && y - Offsets(files)[j] <= |files[j]|
    ensures Flatten(files)[x..y] == files[j][x - Offsets(files)[j]..y - Offsets(files)[j]]
  {
    OffsetsMonotone(files, j + 1, |files|);
    OffsetsStep(files, j);
    OffsetsPrefix(files, j);
    FlattenAround(files, j);
    SliceOfMiddle(Flatten(files[..j]), files[j], Flatten(files[j + 1..]), x, y);
  }

  /**
   * The read loop as written, from file index `i` (1-based, as in the
   * loop) whose first byte is at offset `base` of the big file, at
   * position `pos` with `length` bytes still wanted; `end` is where the
   * read stops. A file that holds `pos` yields a chunk of min(length, its
   * size) bytes from `pos`, and `pos` moves on by that chunk size;
   * otherwise the walk moves to the next file.
   */
  function Walk(files: seq<seq<byte>>, end: nat, pos: nat, length: nat, i: nat, base: nat): seq<byte>
    requires 1 <= i && end <= pos + length
    decreases if pos <= end then end - pos else 0, |files| + 1 - i
  {
    if pos >= end || i > |files| then []
    else if base <= pos < base + |files[i - 1]| then
      var sz := Min(length, |files[i - 1]|);
      FileRead(files[i - 1], pos - base, sz) + Walk(files, end, pos + sz, length - sz, i, base)
    else Walk(files, end, pos, length, i + 1, base + |files[i - 1]|)
  }

  /**
   * One pass of the read loop through a file that holds `pos`: the bytes
   * gathered so far, then the chunk, then the rest of the walk still make
   * up the whole result; the chunk is no longer than its size.
   */
  lemma {:induction false} ChunkStep(files: seq<seq<byte>>, end: nat, pos: nat, length: nat, i: nat, base: nat,
                                     sz: nat, data: seq<byte>, total: seq<byte>)
    requires 1 <= i <= |files| && base <= pos < base + |files[i - 1]|
    requires pos < end <= pos + length
    requires sz == Min(length, |files[i - 1]|)
    requires data + Walk(files, end, pos, length, i, base) == total
    ensures 0 < sz <= length
    ensures (data + FileRead(files[i - 1], pos - base, sz)) + Walk(files, end, pos + sz, length - sz, i, base) == total
    ensures |FileRead(files[i - 1], pos - base, sz)| <= sz
  {
    var chunk := FileRead(files[i - 1], pos - base, sz);
    var rest := Walk(files, end, pos + sz, length - sz, i, base);
    assert data + (chunk + rest) == (data + chunk) + rest;
  }

  /** A pass of the read loop through a file that does not hold `pos` moves on to the next file. */
  lemma {:induction false} NextStep(files: seq<seq<byte>>, end: nat, pos: nat, length: nat, i: nat, base: nat,
                                    next: nat, data: seq<byte>, total: seq<byte>)
    requires 1 <= i <= |files| && next == base + |files[i - 1]| && !(base <= pos < next)
    requires pos < end <= pos + length
    requires data + Walk(files, end, pos, length, i, base) == total
    ensures data + Walk(files, end, pos, length, i + 1, next) == total
  {
  }

  /** BigFile.read as the function its loop computes. */
  function ReadAsWritten(files: seq<seq<byte>>, pos: nat, length: nat): seq<byte>
  {
    Walk(files, Min(Size(files), pos + length), pos, length, 1, 0)
  }

  /**
   * BigFile.read as written: build the offset table, then walk the files
   * collecting chunks until `pos` reaches min(size, pos + length).
   */
  method Read(files: seq<seq<byte>>, pos: nat, length: nat) returns (data: seq<byte>)
    ensures data == ReadAsWritten(files, pos, length)
    ensures |data| <= length
  {
    var lens := PrefixLens(files);
    var end := Min(Size(files), pos + length);
    var p, len, i := pos, length, 1;
    data := [];
    ghost var total := ReadAsWritten(files, pos, length);
    while p < end
      invariant 1 <= i <= |files| + 1 && lens[i - 1] <= p && end <= p + len
      invariant p + len == pos + length
      invariant data + Walk(files, end, p, len, i, lens[i - 1]) == total
      invariant |data| + len <= length
      decreases if p <= end then end - p else 0, |files| + 1 - i
    {
      assert i <= |files|;
      OffsetsStep(files, i - 1);
      if p >= lens[i - 1] && p < lens[i] {
        var sz := Min(len, |files[i - 1]|);
        ChunkStep(files, end, p, len, i, lens[i - 1], sz, data, total);
        data := data + FileRead(files[i - 1], p - lens[i - 1], sz);
        p := p + sz;
        len := len - sz;
      } else {
        NextStep(files, end, p, len, i, lens[i - 1], lens[i], data, total);
        i := i + 1;
      }
    }
  }

  /** Reading at or past the end of the big file yields nothing. */
  lemma {:induction false} ReadPastEnd(files: seq<seq<byte>>, pos: nat, length: nat)
    requires pos >= Size(files)
    ensures ReadAsWritten(files, pos, length) == []
  {
  }

  /** The walk passes over the files that end at or before `pos` without reading. */
  lemma {:induction false} WalkSkips(files: seq<seq<byte>>, end: nat, pos: nat, length: nat, i: nat, j: nat)
    requires 1 <= i <= j + 1 && j < |files| && Offsets(files)[j] <= pos && pos < end <= pos + length
    ensures Walk(files, end, pos, length, i, Offsets(files)[i - 1]) == Walk(files, end, pos, length, j + 1, Offsets(files)[j])
    decreases j + 1 - i
  {
    if i == j + 1 {
    } else {
      OffsetsMonotone(files, i, j);
      OffsetsStep(files, i - 1);
      var next := Walk(files, end, pos, length, i + 1, Offsets(files)[i]);
      assert Walk(files, end, pos, length, i, Offsets(files)[i - 1]) == next;
      WalkSkips(files, end, pos, length, i + 1, j);
    }
  }

  /**
   * A read that lies inside one file returns exactly the bytes of the big
   * file from `pos`, cut at its end.
   */
  lemma {:induction false} ReadInsideFile(files: seq<seq<byte>>, j: nat, pos: nat, length: nat)
    requires j < |files|
    requires Offsets(files)[j] <= pos && pos + length <= Offsets(files)[j + 1]
    ensures pos + length <= Size(files)
    ensures ReadAsWritten(files, pos, length) == Flatten(files)[pos..pos + length]
  {
    var lens := Offsets(files);
    OffsetsMonotone(files, j + 1, |files|);
    var end := pos + length;
    if length > 0 {
      WalkSkips(files, end, pos, length, 1, j);
      InsideFile(files, j, pos, end);
      OffsetsStep(files, j);
      assert Min(length, |files[j]|) == length;
      assert Walk(files, end, pos, length, j + 1, lens[j])
        == FileRead(files[j], pos - lens[j], length) + Walk(files, end, end, 0, j + 1, lens[j]);
    }
  }

  /** The two ten-byte files of the example below. */
  const FirstFile: seq<byte> := [1, 1, 1, 1, 1, 1, 1, 1, 1, 1]
  const SecondFile: seq<byte> := [2, 2, 2, 2, 2, 2, 2, 2, 2, 2]

  /**
   * The read as written skips bytes: two files of ten bytes, a read of ten
   * bytes at offset 5. The first chunk is min(10, 10) = 10 bytes from
   * offset 5 of the first file, which holds only 5 more; `pos` then jumps
   * to 15 and the loop ends, so the first five bytes of the second file
   * are never returned.
   */
  lemma {:induction false} ReadSkipsBytes()
    ensures ReadAsWritten([FirstFile, SecondFile], 5, 10) == FirstFile[5..]
    ensures Flatten([FirstFile, SecondFile])[5..15] == FirstFile[5..] + SecondFile[..5]
    ensures ReadAsWritten([FirstFile, SecondFile], 5, 10) != Flatten([FirstFile, SecondFile])[5..15]
  {
    var files := [FirstFile, SecondFile];
    assert files[..0] == [] && files[..1] == [FirstFile] && files[..2] == files;
    assert [FirstFile][..0] == [];
    var lens := Offsets(files);
    OffsetsStep(files, 0);
    OffsetsStep(files, 1);
    assert lens[0] == 0 && lens[1] == 10 && lens[2] == 20;
    assert Size(files) == 20;
    assert Walk(files, 15, 15, 0, 1, 0) == [];
    assert Walk(files, 15, 5, 10, 1, 0) == FileRead(FirstFile, 5, 10) + Walk(files, 15, 15, 0, 1, 0);
    assert Flatten(files) == FirstFile + SecondFile;
    assert (FirstFile + SecondFile)[5..15] == FirstFile[5..] + SecondFile[..5];
    assert |FirstFile[5..]| == 5;
  }

  /**
   * BigFile.read with the chunk size cut at the end of the file that
   * holds `pos`: min(length, lens[i] - pos) instead of min(length, size of
   * the file). It returns exactly the big file's bytes from `pos` up to
   * min(size, pos + length).
   */
  method ReadCorrected(files: seq<seq<byte>>, pos: nat, length: nat) returns (data: seq<byte>)
    ensures var end := Min(Size(files), pos + length);
      pos <= end ==> data == Flatten(files)[pos..end]
    ensures pos >= Size(files) ==> data == []
  {
    var lens := PrefixLens(files);
    var end := Min(Size(files), pos + length);
    var p, len, i := pos, length, 1;
    data := [];
    while p < end
      invariant 1 <= i <= |files| + 1 && lens[i - 1] <= p && p + len == pos + length
      invariant pos <= end ==> pos <= p <= end && data == Flatten(files)[pos..p]
      invariant pos > end ==> p == pos && data == []
      decreases end - p, |files| + 1 - i
    {
      assert i <= |files|;
      if p >= lens[i - 1] && p < lens[i] {
        var sz := Min(len, lens[i] - p);
        CorrectedStep(files, i, pos, p, sz, data);
        data := data + FileRead(files[i - 1], p - lens[i - 1], sz);
        p := p + sz;
        len := len - sz;
      } else {
        i := i + 1;
      }
    }
  }

  /**
   * One pass of the corrected loop: a chunk that stops at the end of file i
   * continues the bytes of the big file read so far.
   */
  lemma {:induction false} CorrectedStep(files: seq<seq<byte>>, i: nat, pos: nat, p: nat, sz: nat, data: seq<byte>)
    requires 1 <= i <= |files| && Offsets(files)[i - 1] <= p && p + sz <= Offsets(files)[i]
    requires pos <= p <= Size(files) && data == Flatten(files)[pos..p]
    ensures p + sz <= Size(files)
    ensures data + FileRead(files[i - 1], p - Offsets(files)[i - 1], sz) == Flatten(files)[pos..p + sz]
  {
    OffsetsStep(files, i - 1);
    InsideFile(files, i - 1, p, p + sz);
    var flat := Flatten(files);
    assert flat[pos..p + sz] == flat[pos..p] + flat[p..p + sz];
  }
}
