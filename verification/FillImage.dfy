/** The record images of the integrity tests: written through the file position
    (integrity_test2_write.c, lines 90-104), written through one mapping (mmap_write.c, lines
    187-205), and checked (integrity_test2_read.c, lines 92-108). */
module FillImage {
  import opened Basics

  /** A C `char`, signed and eight bits wide. */
  newtype Char = x: int | -128 <= x < 128

  const MAX_FILE: nat := 2147483648
  const INT_MAX: nat := 2147483647

  /** c++, wrapping as a char, and back to 'A' (65) past 'z' (122). */
  function NextFill(c: Char): Char {
    var d := if c == 127 then -128 else c + 1;
    if d > 122 then 65 else d
  }

  /** The fill character of record `i`. */
  function FillAt(c: Char, i: nat): Char {
    if i == 0 then c else NextFill(FillAt(c, i - 1))
  }

  /** Byte `b` of the first `count` records is the fill character of its record. */
  ghost predicate IsImage(data: seq<Char>, c: Char, size: nat, count: nat) {
    && size > 0 && size * count <= |data|
    && forall b: nat | b < size * count :: data[b] == FillAt(c, b / size)
  }

  lemma RecordOf(size: nat, i: nat, x: nat)
    requires x < size
    ensures (size * i + x) / size == i && size * (i + 1) == size * i + size
  {
    var q, r := (size * i + x) / size, (size * i + x) % size;
    assert size * i + x == size * q + r;
    if q < i { Apart(size, q, i); }
    if i < q { Apart(size, i, q); }
  }

  /** Appending one record of its fill character extends the image. */
  lemma ImageNext(data: seq<Char>, data': seq<Char>, c: Char, size: nat, i: nat)
    requires IsImage(data, c, size, i) && size * i + size <= |data'|
    requires forall b: nat | b < size * i :: data'[b] == data[b]
    requires forall b: nat | size * i <= b < size * i + size :: data'[b] == FillAt(c, i)
    ensures IsImage(data', c, size, i + 1)
  {
    RecordOf(size, i, 0);
    forall b: nat | b < size * (i + 1) ensures data'[b] == FillAt(c, b / size) {
      if b >= size * i { RecordOf(size, i, b - size * i); }
    }
  }

  /** `count` records one after the other. */
  function Records(c: Char, size: nat, count: nat): (r: seq<Char>)
    ensures |r| == size * count
  {
    if count == 0 then []
    else
      assert size * count == size * (count - 1) + size;
      Records(c, size, count - 1) + seq(size, _ => FillAt(c, count - 1))
  }

  /** What record writes leave of a file: the records, and what lay beyond them. */
  function PosixOutcome(before: seq<Char>, c: Char, size: nat, count: nat): seq<Char> {
    Records(c, size, count) + if size * count <= |before| then before[size * count..] else []
  }

  /** What the fill loop leaves of a mapping: every byte below the last whole record is the fill
      character of its record. */
  function MmapOutcome(before: seq<Char>, c: Char, size: nat): seq<Char>
    requires size > 0
  {
    var count := |before| / size;
    seq(|before|, b requires 0 <= b < |before| => if b < size * count then FillAt(c, b / size) else before[b])
  }

  // ----- the writers -----

  /** A regular file with its position; a write past the end extends it. */
  class PosixFile {
    var contents: seq<Char>
    var pos: nat

    method Write(buf: array<Char>)
      requires pos <= |contents|
      modifies this
      ensures pos == old(pos) + buf.Length && pos <= |contents|
      ensures contents == old(contents)[..old(pos)] + buf[..] +
                          if pos <= |old(contents)| then old(contents)[pos..] else []
    {
      contents := contents[..pos] + buf[..] +
                  if pos + buf.Length <= |contents| then contents[pos + buf.Length..] else [];
      pos := pos + buf.Length;
    }

    /** Up to buf.Length bytes; the rest of the buffer keeps what it held. */
    method Read(buf: array<Char>) returns (ret: nat)
      requires pos <= |contents|
      modifies this`pos, buf
      ensures ret == (if old(pos) + buf.Length <= |contents| then buf.Length else |contents| - old(pos))
      ensures pos == old(pos) + ret && pos <= |contents|
      ensures buf[..] == contents[old(pos)..pos] + old(buf[..])[ret..]
    {
      ret := if pos + buf.Length <= |contents| then buf.Length else |contents| - pos;
      var i: nat := 0;
      while i < ret
        invariant pos == old(pos) && contents == old(contents)
        invariant i <= ret
        invariant forall b: nat | b < buf.Length ::
                    buf[b] == if b < i then contents[pos + b] else old(buf[b])
      {
        buf[i] := contents[pos + i];
        i := i + 1;
      }
      pos := pos + ret;
    }
  }

  /** memset(data + offset, c, n) */
  method Memset(data: array<Char>, offset: nat, c: Char, n: nat)
    requires offset + n <= data.Length
    modifies data
    ensures forall b: nat | b < data.Length ::
              data[b] == if offset <= b < offset + n then c else old(data[b])
  {
    var i: nat := 0;
    while i < n
      invariant i <= n
      invariant forall b: nat | b < data.Length ::
                  data[b] == if offset <= b < offset + i then c else old(data[b])
    {
      data[offset + i] := c;
      i := i + 1;
    }
  }

  /** The record-writing loop: lseek to 0, then count records through one buffer. */
  method WriteRecords(file: PosixFile, size: nat, count: nat, first: Char)
    requires size > 0
    modifies file
    ensures file.contents == PosixOutcome(old(file.contents), first, size, count)
    ensures IsImage(file.contents, first, size, count)
  {
    var buf := new Char[size];
    var c := first;
    Memset(buf, 0, c, size);
    file.pos := 0;
    var i: nat := 0;
    while i < count
      invariant i <= count && file.pos == size * i && file.pos <= |file.contents|
      invariant c == FillAt(first, i) && forall b: nat | b < size :: buf[b] == c
      invariant IsImage(file.contents, first, size, i)
      invariant file.contents == PosixOutcome(old(file.contents), first, size, i)
    {
      ghost var before := file.contents;
      RecordOf(size, i, 0);
      file.Write(buf);
      assert buf[..] == seq(size, _ => FillAt(first, i));
      OutcomeNext(old(file.contents), before, file.contents, first, size, i);
      ImageNext(before, file.contents, first, size, i);
      c := NextFill(c);
      Memset(buf, 0, c, size);
      i := i + 1;
    }
  }

  lemma OutcomeNext(old': seq<Char>, before: seq<Char>, after: seq<Char>, c: Char, size: nat, i: nat)
    requires before == PosixOutcome(old', c, size, i)
    requires after == before[..size * i] + seq(size, _ => FillAt(c, i)) +
                      if size * i + size <= |before| then before[size * i + size..] else []
    ensures after == PosixOutcome(old', c, size, i + 1)
  {
    assert size * (i + 1) == size * i + size;
    assert before[..size * i] == Records(c, size, i);
  }

  /** The int loop counter and the int product size * i stay in range exactly when a file of 2^31
      bytes is not written byte by byte. */
  lemma CounterFits(fileSize: nat, size: nat)
    requires 0 < size && fileSize <= MAX_FILE
    ensures fileSize / size <= INT_MAX <==> !(size == 1 && fileSize == MAX_FILE)
    ensures forall i: nat | i < fileSize / size :: size * i <= INT_MAX
  {
    var count := fileSize / size;
    assert fileSize == size * count + fileSize % size;
    forall i: nat | i < count ensures size * i <= INT_MAX {
      Apart(size, i, count);
    }
    if size >= 2 && count > INT_MAX {
      TimesTwo(size, count);
    }
  }

  lemma TimesTwo(size: nat, count: nat)
    requires size >= 2
    ensures size * count >= 2 * count
  {
  }

  /** The mmap fill loop over a mapping of the whole file. */
  method MmapFill(data: array<Char>, size: nat, first: Char)
    requires 0 < size && data.Length <= MAX_FILE && data.Length / size <= INT_MAX
    modifies data
    ensures data[..] == MmapOutcome(old(data[..]), first, size)
    ensures IsImage(data[..], first, size, data.Length / size)
  {
    var count := data.Length / size;
    var c := first;
    var i: nat := 0;
    assert data.Length == size * count + data.Length % size;
    while i < count
      invariant i <= count && c == FillAt(first, i)
      invariant IsImage(data[..], first, size, i)
      invariant forall b: nat | size * i <= b < data.Length :: data[b] == old(data[b])
    {
      ghost var before := data[..];
      CounterFits(data.Length, size);
      Apart(size, i, count);
      RecordOf(size, i, 0);
      var addr := size * i;
      assert addr <= INT_MAX && i + 1 <= INT_MAX;
      Memset(data, addr, c, size);
      ImageNext(before, data[..], first, size, i);
      c := NextFill(c);
      i := i + 1;
    }
  }

  lemma {:induction false} RecordByte(c: Char, size: nat, count: nat, b: nat)
    requires size > 0 && b < size * count
    ensures Records(c, size, count)[b] == FillAt(c, b / size)
  {
    RecordOf(size, count - 1, 0);
    if b < size * (count - 1) {
      RecordByte(c, size, count - 1, b);
    } else {
      RecordOf(size, count - 1, b - size * (count - 1));
    }
  }

  /** The two loops, record by record through a buffer and byte by byte in place, leave the same
      file of the same old contents. */
  lemma SameImage(before: seq<Char>, c: Char, size: nat)
    requires size > 0
    ensures PosixOutcome(before, c, size, |before| / size) == MmapOutcome(before, c, size)
  {
    var count := |before| / size;
    assert |before| == size * count + |before| % size;
    forall b: nat | b < |before|
      ensures PosixOutcome(before, c, size, count)[b] == MmapOutcome(before, c, size)[b]
    {
      if b < size * count { RecordByte(c, size, count, b); }
    }
  }

  /** The last store of mmap_write: 40 bytes of 'd' (100) at the start of the mapping. */
  function Stamped(data: seq<Char>): (r: seq<Char>)
    requires |data| >= 40
    ensures |r| == |data|
    ensures forall b: nat | b < |data| :: r[b] == if b < 40 then 100 else data[b]
  {
    seq(40, _ => 100) + data[40..]
  }

  /** All that mmap_write does to the mapping. */
  method MmapWrite(data: array<Char>, size: nat, first: Char)
    requires 0 < size && 40 <= data.Length <= MAX_FILE && data.Length / size <= INT_MAX
    modifies data
    ensures data[..] == Stamped(MmapOutcome(old(data[..]), first, size))
  {
    MmapFill(data, size, first);
    ghost var filled := data[..];
    Memset(data, 0, 100, 40);
    assert data[..] == Stamped(filled);
  }

  // ----- the checker -----

  /** What the checker looks at: the first and the last byte of every record. */
  ghost predicate Accepted(data: seq<Char>, c: Char, size: nat, count: nat)
    requires size > 0
  {
    forall i: nat | i < count :: RecordAccepted(data, c, size, i)
  }

  ghost predicate RecordAccepted(data: seq<Char>, c: Char, size: nat, i: nat)
    requires size > 0
  {
    && size * i + size <= |data|
    && data[size * i] == FillAt(c, i) && data[size * i + size - 1] == FillAt(c, i)
  }

  /** The record-checking loop, with its error messages counted. */
  method CheckRecords(file: PosixFile, size: nat, count: nat, first: Char) returns (errors: nat)
    requires size > 0
    modifies file`pos
    ensures errors == 0 <==> Accepted(file.contents, first, size, count)
  {
    var buf := new Char[size];
    var c := first;
    Memset(buf, 0, c, size);
    file.pos := 0;
    errors := 0;
    var i: nat := 0;
    while i < count
      invariant i <= count && c == FillAt(first, i) && fresh(buf)
      invariant file.contents == old(file.contents) && file.pos <= |file.contents|
      invariant errors == 0 ==> file.pos == size * i
      invariant errors == 0 <==> Accepted(file.contents, first, size, i)
    {
      RecordOf(size, i, 0);
      ghost var pos := file.pos;
      var ret := file.Read(buf);
      assert ret == size ==> buf[..] == file.contents[pos..pos + size];
      if ret != size { errors := errors + 1; }
      if buf[0] != c || buf[size - 1] != c { errors := errors + 1; }
      AcceptedNext(file.contents, first, size, i);
      c := NextFill(c);
      i := i + 1;
    }
  }

  lemma AcceptedNext(data: seq<Char>, c: Char, size: nat, i: nat)
    requires size > 0
    ensures Accepted(data, c, size, i + 1) <==> Accepted(data, c, size, i) && RecordAccepted(data, c, size, i)
  {
  }

  /** A written image passes the check. */
  lemma ImageAccepted(data: seq<Char>, c: Char, size: nat, count: nat)
    requires IsImage(data, c, size, count)
    ensures Accepted(data, c, size, count)
  {
    forall i: nat | i < count ensures RecordAccepted(data, c, size, i) {
      RecordOf(size, i, 0);
      RecordOf(size, i, size - 1);
      Apart(size, i, count);
    }
  }

  /** The check decides the image exactly when records are too short to have a middle. */
  lemma CheckIsExact(size: nat, count: nat, c: Char)
    requires size > 0 && count > 0
    ensures (forall data | Accepted(data, c, size, count) :: IsImage(data, c, size, count)) <==> size <= 2
  {
    if size <= 2 {
      forall data | Accepted(data, c, size, count) ensures IsImage(data, c, size, count) {
        ShortRecords(data, c, size, count);
      }
    } else {
      var data := Hollow(c, size, count);
      assert data[1] != FillAt(c, 0) && 1 / size == 0 && 1 < size * count;
      assert !IsImage(data, c, size, count);
    }
  }

  lemma ShortRecords(data: seq<Char>, c: Char, size: nat, count: nat)
    requires 0 < size <= 2 && Accepted(data, c, size, count)
    ensures IsImage(data, c, size, count)
  {
    if count > 0 {
      assert RecordAccepted(data, c, size, count - 1);
      RecordOf(size, count - 1, 0);
    }
    forall b: nat | b < size * count ensures b < |data| && data[b] == FillAt(c, b / size) {
      assert b / size < count;
      assert RecordAccepted(data, c, size, b / size);
    }
  }

  /** A file that passes the check although byte 1 is wrong. */
  lemma Hollow(c: Char, size: nat, count: nat) returns (data: seq<Char>)
    requires size >= 3 && count > 0
    ensures Accepted(data, c, size, count) && size * count == |data| && 1 < |data| && data[1] != c
  {
    var image := seq(size * count, b requires 0 <= b < size * count => FillAt(c, b / size));
    Apart(size, 0, count);
    ImageAccepted(image, c, size, count);
    data := image[1 := NextFill(c)];
    forall i: nat | i < count ensures RecordAccepted(data, c, size, i) {
      assert RecordAccepted(image, c, size, i);
      if i > 0 { Apart(size, 0, i); }
    }
  }

  /** What the last store does to an image: it is still one, and still passes the check, exactly when
      the fill character started as 'd' and the store stays in the first record or there is no other. */
  lemma StampedImage(data: seq<Char>, c: Char, size: nat, count: nat)
    requires IsImage(data, c, size, count) && count > 0 && |data| >= 40
    ensures Accepted(Stamped(data), c, size, count) <==> c == 100 && (size >= 40 || count == 1)
    ensures IsImage(Stamped(data), c, size, count) <==> c == 100 && (size >= 40 || count == 1)
  {
    if c == 100 && (size >= 40 || count == 1) {
      StampFits(data, c, size, count);
      ImageAccepted(Stamped(data), c, size, count);
    } else {
      StampShows(data, c, size, count);
      if IsImage(Stamped(data), c, size, count) { ImageAccepted(Stamped(data), c, size, count); }
    }
  }

  lemma StampFits(data: seq<Char>, c: Char, size: nat, count: nat)
    requires IsImage(data, c, size, count) && count > 0 && |data| >= 40
    requires c == 100 && (size >= 40 || count == 1)
    ensures IsImage(Stamped(data), c, size, count)
  {
    assert size > 0 && size * count <= |data|;
    hide IsImage, FillAt, Stamped;
    var r, total := Stamped(data), size * count;
    forall b: nat | b < total ensures r[b] == FillAt(c, b / size) {
      if b < 40 { StampedByte(c, size, count, b); } else { ImageByte(data, c, size, count, b); }
    }
    hide *;
    BytesImage(r, c, size, count, total);
  }

  lemma ImageByte(data: seq<Char>, c: Char, size: nat, count: nat, b: nat)
    requires IsImage(data, c, size, count) && b < size * count
    ensures size > 0 && b < |data| && data[b] == FillAt(c, b / size)
  {
  }

  lemma BytesImage(r: seq<Char>, c: Char, size: nat, count: nat, total: nat)
    requires size > 0 && total == size * count <= |r|
    requires forall b: nat | b < total :: r[b] == FillAt(c, b / size)
    ensures IsImage(r, c, size, count)
  {
  }

  lemma StampedByte(c: Char, size: nat, count: nat, b: nat)
    requires c == 100 && (size >= 40 || count == 1) && b < size * count && b < 40
    ensures size > 0 && FillAt(c, b / size) == 100
  {
    assert FillAt(c, 0) == c;
    hide FillAt;
    assert b < size;
    RecordOf(size, 0, b);
  }

  lemma StampShows(data: seq<Char>, c: Char, size: nat, count: nat)
    requires IsImage(data, c, size, count) && count > 0 && |data| >= 40
    requires c != 100 || (size < 40 && count > 1)
    ensures !Accepted(Stamped(data), c, size, count)
  {
    assert FillAt(c, 0) == c && FillAt(c, 1) == NextFill(c);
    hide FillAt;
    assert Stamped(data)[0] == 100;
    if c != 100 {
      assert !RecordAccepted(Stamped(data), c, size, 0);
    } else {
      assert Stamped(data)[size * 1] == 100 && !RecordAccepted(Stamped(data), c, size, 1);
    }
  }

  // ----- the cycle -----

  predicate InCycle(c: Char) {
    65 <= c <= 122
  }

  /** Inside 'A'..'z' the fill characters go round with period 58. */
  lemma {:induction false} CycleForm(c: Char, i: nat)
    requires InCycle(c)
    ensures FillAt(c, i) as int == 65 + (c as int - 65 + i) % 58
  {
    if i > 0 { CycleForm(c, i - 1); }
  }

  lemma {:induction false} ClimbForm(c: Char, i: nat)
    requires c as int + i <= 122
    ensures FillAt(c, i) as int == c as int + i
  {
    if i > 0 { ClimbForm(c, i - 1); }
  }

  /** The records after the `k`-th continue from its fill character. */
  lemma {:induction false} FillFrom(c: Char, k: nat, i: nat)
    ensures FillAt(c, k + i) == FillAt(FillAt(c, k), i)
  {
    if i > 0 { FillFrom(c, k, i - 1); }
  }

  /** The fill characters of an image in closed form, for every start character: one up with each record
      until 'z' (122), and round from 'A' (65) after that. From past 'z' the next is 'A', except that 127
      wraps to -128 and climbs from there. */
  lemma FillForm(c: Char, i: nat)
    ensures FillAt(c, 0) == c
    ensures c <= 122 ==>
              FillAt(c, i) as int ==
              if c as int + i <= 122 then c as int + i else 65 + (i - (123 - c as int)) % 58
    ensures 122 < c < 127 && i > 0 ==> FillAt(c, i) as int == 65 + (i - 1) % 58
    ensures c == 127 && i > 0 ==>
              FillAt(c, i) as int == if i <= 251 then -129 + i else 65 + (i - 252) % 58
  {
    if c <= 122 {
      BelowForm(c, i);
    } else if i > 0 {
      FillFrom(c, 1, i - 1);
      assert FillAt(c, 0) == c && FillAt(c, 1) == NextFill(c);
      if c < 127 { CycleForm(65, i - 1); } else { BelowForm(-128, i - 1); }
    }
  }

  lemma BelowForm(c: Char, i: nat)
    requires c <= 122
    ensures FillAt(c, i) as int ==
            if c as int + i <= 122 then c as int + i else 65 + (i - (123 - c as int)) % 58
  {
    var up: nat := 122 - c as int;
    if i <= up {
      ClimbForm(c, i);
    } else {
      ClimbForm(c, up);
      assert FillAt(c, up + 1) == 65;
      FillFrom(c, up + 1, i - up - 1);
      CycleForm(65, i - up - 1);
    }
  }

  /** No fill character goes past 'z', and one from below 'A' never comes back down. */
  lemma {:induction false} NoWayBack(c: Char, k: nat)
    requires k > 0
    ensures FillAt(c, k) <= 122 && (c < 65 ==> FillAt(c, k) > c)
  {
    if k > 1 { NoWayBack(c, k - 1); }
    assert FillAt(c, 0) == c;
  }

  /** An image shifted by `k` whole records passes the check exactly when it is not shifted at all, or
      the fill characters are in the cycle and k is a multiple of 58. */
  lemma ShiftDetected(data: seq<Char>, c: Char, size: nat, count: nat, k: nat)
    requires count > 0 && IsImage(data, FillAt(c, k), size, count)
    ensures Accepted(data, c, size, count) <==> k == 0 || (InCycle(c) && k % 58 == 0)
  {
    CycleReturn(c, k);
    ImageAccepted(data, FillAt(c, k), size, count);
    if FillAt(c, k) != c {
      FirstRecord(data, FillAt(c, k), c, size, count);
    }
  }

  lemma CycleReturn(c: Char, k: nat)
    ensures FillAt(c, k) == c <==> k == 0 || (InCycle(c) && k % 58 == 0)
  {
    if k > 0 { NoWayBack(c, k); }
    assert k == 0 ==> FillAt(c, k) == c;
    hide FillAt;
    if InCycle(c) {
      CycleForm(c, k);
      AroundAgain(c as int - 65, k);
    }
  }

  lemma AroundAgain(a: nat, k: nat)
    requires a < 58
    ensures (a + k) % 58 == a <==> k % 58 == 0
  {
  }

  lemma FirstRecord(data: seq<Char>, c: Char, c': Char, size: nat, count: nat)
    requires count > 0 && size > 0 && c != c' && Accepted(data, c, size, count)
    ensures !Accepted(data, c', size, count)
  {
    assert RecordAccepted(data, c, size, 0) && !RecordAccepted(data, c', size, 0);
  }
}
