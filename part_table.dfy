/**
 * The part table of main.c: the ordered list of (name, length) records that
 * both modes build at start-up, the names split mode gives its parts, and
 * the first-match name search that lookup and rename share.
 */
module PartTable {
  import opened Common

  /** Split mode cuts the source file into parts of 100 MiB. */
  const PART_SIZE_BYTES: nat := 100 * 1024 * 1024

  /** One `struct filepart`: its display name and its length in bytes. */
  datatype Part = Part(name: string, len: nat)

  /**
   * A FUSE inode number: the root directory (FUSE_ROOT_ID), inode 2 for the
   * joined file, or a part, named by its position in the table where main.c
   * uses the address of its list node.
   */
  datatype Inode = RootIno | WholeIno | PartIno(index: nat)

  /** Sum of the lengths of `parts`. */
  function SumLens(parts: seq<Part>): nat
  {
    if parts == [] then 0 else parts[0].len + SumLens(parts[1..])
  }

  lemma {:induction false} SumLensAppend(a: seq<Part>, b: seq<Part>)
    ensures SumLens(a + b) == SumLens(a) + SumLens(b)
    decreases |a|
  {
    if a == [] {
      assert a + b == b;
    } else {
      assert (a + b)[1..] == a[1..] + b;
      SumLensAppend(a[1..], b);
    }
  }

  /** The offset of part k is the offset of part k - 1 plus its length. */
  lemma {:induction false} SumLensPrefixStep(parts: seq<Part>, k: nat)
    requires k < |parts|
    ensures SumLens(parts[..k + 1]) == SumLens(parts[..k]) + parts[k].len
  {
    assert parts[..k + 1] == parts[..k] + [parts[k]];
    SumLensAppend(parts[..k], [parts[k]]);
  }

  /** The part offsets split the total: what lies before k plus what lies from k on. */
  lemma {:induction false} SumLensSplit(parts: seq<Part>, k: nat)
    requires k <= |parts|
    ensures SumLens(parts) == SumLens(parts[..k]) + SumLens(parts[k..])
  {
    assert parts == parts[..k] + parts[k..];
    SumLensAppend(parts[..k], parts[k..]);
  }

  /** Only lengths count: two tables with the same lengths have the same total. */
  lemma {:induction false} SumLensSameLens(a: seq<Part>, b: seq<Part>)
    requires |a| == |b|
    requires forall k :: 0 <= k < |a| ==> a[k].len == b[k].len
    ensures SumLens(a) == SumLens(b)
    decreases |a|
  {
    if a != [] {
      SumLensSameLens(a[1..], b[1..]);
    }
  }

  // ---------------------------------------------------------------------
  // Part names: sprintf("part_%.3d", k)

  predicate IsDigits(s: string)
  {
    forall i :: 0 <= i < |s| ==> '0' <= s[i] <= '9'
  }

  function DigitChar(d: nat): (c: char)
    requires d < 10
    ensures '0' <= c <= '9' && c as int - '0' as int == d
  {
    (d + '0' as int) as char
  }

  /** Decimal rendering of `n` without leading zeros. */
  function Decimal(n: nat): string
  {
    if n < 10 then [DigitChar(n)] else Decimal(n / 10) + [DigitChar(n % 10)]
  }

  /** The rendering is one digit or more, and at most three below 1000. */
  lemma {:induction false} DecimalShape(n: nat)
    ensures IsDigits(Decimal(n)) && 1 <= |Decimal(n)|
    ensures n < 10 ==> |Decimal(n)| == 1
    ensures n < 100 ==> |Decimal(n)| <= 2
    ensures n < 1000 ==> |Decimal(n)| <= 3
  {
    if n >= 10 {
      DecimalShape(n / 10);
    }
  }

  /** The number a string of decimal digits denotes. */
  function DigitsValue(s: string): nat
    requires IsDigits(s)
  {
    if s == [] then 0
    else DigitsValue(s[..|s| - 1]) * 10 + (s[|s| - 1] as int - '0' as int)
  }

  function Zeros(n: nat): (z: string)
    ensures |z| == n && IsDigits(z)
  {
    if n == 0 then [] else Zeros(n - 1) + ['0']
  }

  /** `%.Nd` precision: pad with leading zeros up to `width` digits. */
  function ZeroPad(s: string, width: nat): string
  {
    if |s| < width then Zeros(width - |s|) + s else s
  }

  /** The name main.c gives split-mode part number `k` (1-based). */
  function PartName(k: nat): string
  {
    "part_" + ZeroPad(Decimal(k), 3)
  }

  /** Part names are "part_" and then at least three digits; exactly three below 1000. */
  lemma {:induction false} PartNameShape(k: nat)
    ensures |PartName(k)| >= 8 && PartName(k)[..5] == "part_" && IsDigits(PartName(k)[5..])
    ensures k < 1000 ==> |PartName(k)| == 8
  {
    DecimalShape(k);
    assert PartName(k)[5..] == ZeroPad(Decimal(k), 3);
  }

  lemma {:induction false} DecimalValue(n: nat)
    ensures IsDigits(Decimal(n)) && DigitsValue(Decimal(n)) == n
  {
    DecimalShape(n);
    if n >= 10 {
      var s := Decimal(n);
      assert s[..|s| - 1] == Decimal(n / 10);
      DecimalValue(n / 10);
    }
  }

  lemma {:induction false} ZerosValue(n: nat)
    ensures DigitsValue(Zeros(n)) == 0
  {
    if n > 0 {
      assert Zeros(n)[..n - 1] == Zeros(n - 1);
      ZerosValue(n - 1);
    }
  }

  lemma {:induction false} LeadingZerosValue(n: nat, s: string)
    requires IsDigits(s)
    ensures DigitsValue(Zeros(n) + s) == DigitsValue(s)
    decreases |s|
  {
    if s == [] {
      assert Zeros(n) + s == Zeros(n);
      ZerosValue(n);
    } else {
      var t := Zeros(n) + s;
      assert t[..|t| - 1] == Zeros(n) + s[..|s| - 1];
      LeadingZerosValue(n, s[..|s| - 1]);
    }
  }

  /** Reading the digits of part k's name back gives k. */
  lemma {:induction false} PartNameValue(k: nat)
    ensures IsDigits(PartName(k)[5..]) && DigitsValue(PartName(k)[5..]) == k
  {
    var d := Decimal(k);
    var digits := ZeroPad(d, 3);
    assert PartName(k) == "part_" + digits;
    assert PartName(k)[5..] == digits;
    DecimalValue(k);
    if |d| < 3 {
      assert digits == Zeros(3 - |d|) + d;
      LeadingZerosValue(3 - |d|, d);
    }
  }

  /** Distinct part numbers get distinct names. */
  lemma {:induction false} PartNameInjective(j: nat, k: nat)
    requires PartName(j) == PartName(k)
    ensures j == k
  {
    PartNameValue(j);
    PartNameValue(k);
  }

  // ---------------------------------------------------------------------
  // Split-mode table (main.c, the `while (total_bytes > 0)` loop)

  /**
   * The parts the split loop appends when `remaining` bytes are left and
   * `i` parts exist already.
   */
  function SplitFrom(remaining: nat, i: nat, name: nat -> string): seq<Part>
    decreases remaining
  {
    if remaining == 0 then []
    else if remaining >= PART_SIZE_BYTES then
      [Part(name(i + 1), PART_SIZE_BYTES)] + SplitFrom(remaining - PART_SIZE_BYTES, i + 1, name)
    else [Part(name(i + 1), remaining)]
  }

  /** One turn of the split loop: the next part takes a full chunk or what is left. */
  lemma {:induction false} SplitFromStep(remaining: nat, i: nat, name: nat -> string)
    requires remaining > 0
    ensures var len := if remaining >= PART_SIZE_BYTES then PART_SIZE_BYTES else remaining;
      SplitFrom(remaining, i, name) == [Part(name(i + 1), len)] + SplitFrom(remaining - len, i + 1, name)
  {
  }

  /**
   * One turn of the split loop keeps its invariant: the parts appended so
   * far followed by the parts still to come make up the table.
   */
  lemma {:induction false} SplitLoopStep(done: seq<Part>, remaining: nat, i: nat, name: nat -> string, table: seq<Part>)
    requires remaining > 0 && done + SplitFrom(remaining, i, name) == table
    ensures var len := if remaining >= PART_SIZE_BYTES then PART_SIZE_BYTES else remaining;
      (done + [Part(name(i + 1), len)]) + SplitFrom(remaining - len, i + 1, name) == table
  {
    var len := if remaining >= PART_SIZE_BYTES then PART_SIZE_BYTES else remaining;
    var part, rest := Part(name(i + 1), len), SplitFrom(remaining - len, i + 1, name);
    SplitFromStep(remaining, i, name);
    assert done + [part] + rest == done + ([part] + rest);
  }

  /** The table split mode builds for a source of `size` bytes. */
  function SplitTable(size: nat): seq<Part>
  {
    SplitFrom(size, 0, PartName)
  }

  lemma {:induction false} DivStep(x: nat)
    ensures (x + PART_SIZE_BYTES + PART_SIZE_BYTES - 1) / PART_SIZE_BYTES
         == (x + PART_SIZE_BYTES - 1) / PART_SIZE_BYTES + 1
  {
  }

  lemma {:induction false} SplitFromCount(remaining: nat, i: nat, name: nat -> string)
    ensures |SplitFrom(remaining, i, name)| == (remaining + PART_SIZE_BYTES - 1) / PART_SIZE_BYTES
    decreases remaining
  {
    if remaining >= PART_SIZE_BYTES {
      SplitFromCount(remaining - PART_SIZE_BYTES, i + 1, name);
      DivStep(remaining - PART_SIZE_BYTES);
    }
  }

  lemma {:induction false} SplitFromSum(remaining: nat, i: nat, name: nat -> string)
    ensures SumLens(SplitFrom(remaining, i, name)) == remaining
    decreases remaining
  {
    if remaining >= PART_SIZE_BYTES {
      var t, rest := SplitFrom(remaining, i, name), SplitFrom(remaining - PART_SIZE_BYTES, i + 1, name);
      assert t[1..] == rest;
      SplitFromSum(remaining - PART_SIZE_BYTES, i + 1, name);
    }
  }

  lemma {:induction false} SplitFromLast(remaining: nat, i: nat, name: nat -> string)
    ensures SplitFrom(remaining, i, name) != [] ==>
      0 < SplitFrom(remaining, i, name)[|SplitFrom(remaining, i, name)| - 1].len <= PART_SIZE_BYTES
    decreases remaining
  {
    if remaining >= PART_SIZE_BYTES {
      var rest := SplitFrom(remaining - PART_SIZE_BYTES, i + 1, name);
      SplitFromLast(remaining - PART_SIZE_BYTES, i + 1, name);
      var t := [Part(name(i + 1), PART_SIZE_BYTES)] + rest;
      assert SplitFrom(remaining, i, name) == t;
      if rest != [] {
        assert t[|t| - 1] == rest[|rest| - 1];
      }
    }
  }

  lemma {:induction false} SplitFromFull(remaining: nat, i: nat, name: nat -> string)
    ensures forall k :: 0 <= k < |SplitFrom(remaining, i, name)| - 1 ==>
      SplitFrom(remaining, i, name)[k].len == PART_SIZE_BYTES
    decreases remaining
  {
    if remaining >= PART_SIZE_BYTES {
      var t, rest := SplitFrom(remaining, i, name), SplitFrom(remaining - PART_SIZE_BYTES, i + 1, name);
      SplitFromFull(remaining - PART_SIZE_BYTES, i + 1, name);
      forall k | 0 <= k < |t| - 1 ensures t[k].len == PART_SIZE_BYTES {
        if k > 0 {
          assert t[k] == rest[k - 1];
        }
      }
    }
  }

  lemma {:induction false} SplitFromNames(remaining: nat, i: nat, name: nat -> string)
    ensures forall k :: 0 <= k < |SplitFrom(remaining, i, name)| ==>
      SplitFrom(remaining, i, name)[k].name == name(i + k + 1)
    decreases remaining
  {
    if remaining >= PART_SIZE_BYTES {
      var t, rest := SplitFrom(remaining, i, name), SplitFrom(remaining - PART_SIZE_BYTES, i + 1, name);
      SplitFromNames(remaining - PART_SIZE_BYTES, i + 1, name);
      forall k | 0 <= k < |t| ensures t[k].name == name(i + k + 1) {
        if k > 0 {
          assert t[k] == rest[k - 1];
        }
      }
    }
  }

  /**
   * Split mode yields ceil(size / 100 MiB) parts, all full but the last,
   * which holds between 1 byte and a full part; the lengths add up to the
   * source size (so an empty source gives no part), and part k + 1 is
   * named part_ followed by k + 1 with at least three digits.
   */
  lemma {:induction false} SplitTableShape(size: nat)
    ensures |SplitTable(size)| == (size + PART_SIZE_BYTES - 1) / PART_SIZE_BYTES
    ensures SumLens(SplitTable(size)) == size
    ensures size == 0 <==> SplitTable(size) == []
    ensures forall k :: 0 <= k < |SplitTable(size)| - 1 ==> SplitTable(size)[k].len == PART_SIZE_BYTES
    ensures SplitTable(size) != [] ==>
      0 < SplitTable(size)[|SplitTable(size)| - 1].len <= PART_SIZE_BYTES
    ensures forall k :: 0 <= k < |SplitTable(size)| ==> SplitTable(size)[k].name == PartName(k + 1)
  {
    SplitFromCount(size, 0, PartName);
    SplitFromSum(size, 0, PartName);
    SplitFromLast(size, 0, PartName);
    SplitFromFull(size, 0, PartName);
    SplitFromNames(size, 0, PartName);
  }

  /** No two split-mode parts share a name. */
  lemma {:induction false} SplitTableNamesUnique(size: nat, j: nat, k: nat)
    requires j < k < |SplitTable(size)|
    ensures SplitTable(size)[j].name != SplitTable(size)[k].name
  {
    SplitTableName(size, j);
    SplitTableName(size, k);
    if PartName(j + 1) == PartName(k + 1) {
      PartNameInjective(j + 1, k + 1);
    }
  }

  /** Split-mode part k (0-based) is named after its 1-based number. */
  lemma {:induction false} SplitTableName(size: nat, k: nat)
    requires k < |SplitTable(size)|
    ensures SplitTable(size)[k].name == PartName(k + 1)
  {
    SplitFromNames(size, 0, PartName);
  }

  lemma {:induction false} SplitFromOffset(remaining: nat, i: nat, name: nat -> string, k: nat)
    requires k < |SplitFrom(remaining, i, name)|
    ensures SumLens(SplitFrom(remaining, i, name)[..k]) == k * PART_SIZE_BYTES
    decreases remaining
  {
    var t := SplitFrom(remaining, i, name);
    if k > 0 {
      assert remaining >= PART_SIZE_BYTES;
      var rest := SplitFrom(remaining - PART_SIZE_BYTES, i + 1, name);
      assert t[..k] == [t[0]] + rest[..k - 1];
      SumLensAppend([t[0]], rest[..k - 1]);
      SplitFromOffset(remaining - PART_SIZE_BYTES, i + 1, name, k - 1);
    }
  }

  /** Part k (0-based) of a split table starts at byte k * 100 MiB of the source. */
  lemma {:induction false} SplitTableOffset(size: nat, k: nat)
    requires k < |SplitTable(size)|
    ensures SumLens(SplitTable(size)[..k]) == k * PART_SIZE_BYTES
  {
    SplitFromOffset(size, 0, PartName, k);
  }

  // ---------------------------------------------------------------------
  // Join-mode table (main.c, the `while (--argc > 1)` loop)

  /** One input file of join mode: its canonical path and what stat said of its size. */
  datatype Input = Input(path: string, size: Option<nat>)

  predicate AllStated(inputs: seq<Input>)
  {
    forall k :: 0 <= k < |inputs| ==> inputs[k].size.Some?
  }

  /** The table join mode builds: one part per input, appended in argument order. */
  function JoinTable(inputs: seq<Input>): seq<Part>
    requires AllStated(inputs)
  {
    if inputs == [] then []
    else
      var last := inputs[|inputs| - 1];
      JoinTable(inputs[..|inputs| - 1]) + [Part(last.path, last.size.value)]
  }

  /** Join mode has exactly one part per input, in input order, named by its path. */
  lemma {:induction false} JoinTableShape(inputs: seq<Input>)
    requires AllStated(inputs)
    ensures |JoinTable(inputs)| == |inputs|
    ensures forall k :: 0 <= k < |inputs| ==>
      JoinTable(inputs)[k] == Part(inputs[k].path, inputs[k].size.value)
  {
    if inputs != [] {
      JoinTableShape(inputs[..|inputs| - 1]);
    }
  }

  // ---------------------------------------------------------------------
  // Name search shared by lookup and rename

  /** The index of the first part called `name`, if any. */
  function FindName(parts: seq<Part>, name: string): (r: Option<nat>)
    ensures r.Some? ==> r.value < |parts| && parts[r.value].name == name
    ensures r.Some? ==> forall j :: 0 <= j < r.value ==> parts[j].name != name
    ensures r.None? <==> forall j :: 0 <= j < |parts| ==> parts[j].name != name
  {
    if parts == [] then None
    else if parts[0].name == name then Some(0)
    else match FindName(parts[1..], name)
      case None => None
      case Some(k) => Some(k + 1)
  }

  /** The search returns the first match: part k when no earlier part has the name. */
  lemma {:induction false} FindNameFirst(parts: seq<Part>, name: string, k: nat)
    requires k < |parts| && parts[k].name == name
    requires forall j :: 0 <= j < k ==> parts[j].name != name
    ensures FindName(parts, name) == Some(k)
  {
    var r := FindName(parts, name);
    assert r.Some?;
    assert !(r.value < k);
  }

  /** Every split-mode part is found under its own name. */
  lemma {:induction false} SplitTableFind(size: nat, k: nat)
    requires k < |SplitTable(size)|
    ensures FindName(SplitTable(size), PartName(k + 1)) == Some(k)
  {
    var t := SplitTable(size);
    SplitFromNames(size, 0, PartName);
    forall j | 0 <= j < k ensures t[j].name != t[k].name {
      SplitTableNamesUnique(size, j, k);
    }
    FindNameFirst(t, t[k].name, k);
  }

  // ---------------------------------------------------------------------
  // Rename: one name overwritten in place

  /** The table after part k's name is replaced by `newName`. */
  function RenamePart(parts: seq<Part>, k: nat, newName: string): (r: seq<Part>)
    requires k < |parts|
    ensures |r| == |parts| && r[k].name == newName
    ensures forall j :: 0 <= j < |parts| ==> r[j].len == parts[j].len
    ensures forall j :: 0 <= j < |parts| && j != k ==> r[j] == parts[j]
  {
    parts[k := Part(newName, parts[k].len)]
  }

  /**
   * Rename keeps every length, and so the total; afterwards the new name
   * finds the renamed part unless an earlier part already bore that name,
   * and the old name is gone unless another part bore it too.
   */
  lemma {:induction false} RenameThenFind(parts: seq<Part>, name: string, newName: string, k: nat)
    requires FindName(parts, name) == Some(k)
    ensures SumLens(RenamePart(parts, k, newName)) == SumLens(parts)
    ensures (forall j :: 0 <= j < k ==> parts[j].name != newName) ==>
      FindName(RenamePart(parts, k, newName), newName) == Some(k)
    ensures name != newName && (forall j :: 0 <= j < |parts| && j != k ==> parts[j].name != name) ==>
      FindName(RenamePart(parts, k, newName), name) == None
  {
    var r := RenamePart(parts, k, newName);
    SumLensSameLens(r, parts);
    if forall j :: 0 <= j < k ==> parts[j].name != newName {
      FindNameFirst(r, newName, k);
    }
  }

  /** With a name collision, the new name finds the earlier part and not the renamed one. */
  lemma {:induction false} RenameCollision(parts: seq<Part>, name: string, newName: string, k: nat, j: nat)
    requires FindName(parts, name) == Some(k)
    requires j < k && parts[j].name == newName
    ensures FindName(RenamePart(parts, k, newName), newName) != Some(k)
  {
  }
}
