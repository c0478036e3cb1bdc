/** Open files (filesys/openfile.cc): a string of bytes over whole-sector reads and writes. */
module OpenFiles {
  import opened Common
  import opened Memory
  import opened Disks
  import opened FileHeaders

  // ---------------------------------------------------------------- a file as a string of bytes

  /** Byte `x` of a file whose data sectors are `data`. */
  function ByteAt(disk: seq<Sector>, data: seq<nat>, x: nat): Byte
    requires x / 128 < |data| && data[x / 128] < |disk|
  {
    disk[data[x / 128]][x % 128]
  }

  /** The file's sectors are on the disk, all different, and enough for its length. */
  ghost predicate Layout(disk: seq<Sector>, data: seq<nat>, length: nat) {
    && Distinct(data) && (forall j :: 0 <= j < |data| ==> data[j] < |disk|)
    && (forall x: nat :: x < length ==> x / 128 < |data|)
  }

  ghost function Bytes(disk: seq<Sector>, data: seq<nat>, length: nat): (s: seq<Byte>)
    requires Layout(disk, data, length)
    ensures |s| == length && forall x :: 0 <= x < length ==> s[x] == ByteAt(disk, data, x)
  {
    seq(length, x requires 0 <= x < length => ByteAt(disk, data, x))
  }

  /** How much of a request is within the file. */
  function Amount(numBytes: int, position: nat, length: nat): (k: nat)
    ensures k > 0 ==> position + k <= length
  {
    if numBytes <= 0 || position >= length then 0
    else if position + numBytes > length then length - position
    else numBytes
  }

  /** It is the greatest number of bytes, not more than asked for, that lie within the file. */
  lemma AmountGreatest(numBytes: int, position: nat, length: nat, j: nat)
    ensures var k := Amount(numBytes, position, length); k == 0 || (k <= numBytes && position + k <= length)
    ensures j <= numBytes && position + j <= length ==> j <= Amount(numBytes, position, length)
  {
  }

  /** A string with `bytes` put in at `position`, as far as they are within it. */
  function Put(s: seq<Byte>, position: nat, bytes: seq<Byte>): (r: seq<Byte>)
    ensures |r| == |s|
    ensures var k := Amount(|bytes|, position, |s|);
      forall x :: 0 <= x < |s| ==> r[x] == if position <= x < position + k then bytes[x - position] else s[x]
  {
    var k := Amount(|bytes|, position, |s|);
    if k == 0 then s else s[..position] + bytes[..k] + s[position + k..]
  }

  /** Two writes in a row put the concatenation. */
  lemma PutsConcatenate(s: seq<Byte>, position: nat, a: seq<Byte>, b: seq<Byte>)
    ensures Put(Put(s, position, a), position + Amount(|a|, position, |s|), b) == Put(s, position, a + b)
  {
    hide Put;
  }

  /** Reading back what was put. */
  lemma PutThenGet(s: seq<Byte>, position: nat, bytes: seq<Byte>)
    requires position <= |s|
    ensures var k := Amount(|bytes|, position, |s|); Put(s, position, bytes)[position..position + k] == bytes[..k]
  {
    hide Put;
  }

  // ---------------------------------------------------------------- what WriteAt leaves on the disk

  /** Byte `x` of the file after `bytes` are written at `position`: new, old, or, past the end of the file, zero. */
  function NewByte(disk: seq<Sector>, data: seq<nat>, length: nat, position: nat, bytes: seq<Byte>, x: nat): Byte
    requires x / 128 < |data| && data[x / 128] < |disk|
  {
    if position <= x < position + |bytes| then bytes[x - position] else if x < length then ByteAt(disk, data, x) else 0
  }

  predicate Touched(position: nat, count: nat, j: nat) {
    count > 0 && position / 128 <= j <= (position + count - 1) / 128
  }

  /** The disk after the touched sectors of the file, and no others, have their new bytes. */
  ghost predicate IsWritten(
    disk: seq<Sector>, disk': seq<Sector>, data: seq<nat>, length: nat, position: nat, bytes: seq<Byte>)
    requires Layout(disk, data, length)
  {
    && |disk'| == |disk|
    && (forall x: nat :: x / 128 < |data| && Touched(position, |bytes|, x / 128) ==>
          disk'[data[x / 128]][x % 128] == NewByte(disk, data, length, position, bytes, x))
    && (forall s :: 0 <= s < |disk| && (forall j :: 0 <= j < |data| && Touched(position, |bytes|, j) ==> data[j] != s) ==>
          disk'[s] == disk[s])
  }

  lemma TouchedBytes(position: nat, count: nat, x: nat)
    requires position <= x < position + count
    ensures Touched(position, count, x / 128)
  {
  }

  lemma UntouchedSector(data: seq<nat>, position: nat, count: nat, i: nat)
    requires Distinct(data) && i < |data| && !Touched(position, count, i)
    ensures forall j :: 0 <= j < |data| && Touched(position, count, j) ==> data[j] != data[i]
  {
  }

  /** WriteAt splices: the file's bytes are the old ones with the new ones put in. */
  lemma WriteSplices(disk: seq<Sector>, disk': seq<Sector>, data: seq<nat>, length: nat, position: nat, bytes: seq<Byte>)
    requires Layout(disk, data, length) && IsWritten(disk, disk', data, length, position, bytes)
    requires |bytes| == Amount(|bytes|, position, length)
    ensures Layout(disk', data, length) && Bytes(disk', data, length) == Put(Bytes(disk, data, length), position, bytes)
  {
    hide Put, Bytes;
    forall x: nat | x < length
      ensures ByteAt(disk', data, x) == if position <= x < position + |bytes| then bytes[x - position] else ByteAt(disk, data, x)
    {
      if position <= x < position + |bytes| {
        TouchedBytes(position, |bytes|, x);
      } else if !Touched(position, |bytes|, x / 128) {
        UntouchedSector(data, position, |bytes|, x / 128);
      }
    }
  }

  /** No other file's bytes change. */
  lemma OtherFilesKept(
    disk: seq<Sector>, disk': seq<Sector>, data: seq<nat>, length: nat, position: nat, bytes: seq<Byte>,
    other: seq<nat>, otherLength: nat)
    requires Layout(disk, data, length) && IsWritten(disk, disk', data, length, position, bytes)
    requires Layout(disk, other, otherLength) && forall i, j :: 0 <= i < |data| && 0 <= j < |other| ==> data[i] != other[j]
    ensures Layout(disk', other, otherLength) && Bytes(disk', other, otherLength) == Bytes(disk, other, otherLength)
  {
    hide Bytes;
    forall x: nat | x < otherLength ensures ByteAt(disk', other, x) == ByteAt(disk, other, x) {
      var s := other[x / 128];
      assert forall j :: 0 <= j < |data| && Touched(position, |bytes|, j) ==> data[j] != s;
    }
  }

  // ---------------------------------------------------------------- the open file's own form

  predicate HasByte(disk: seq<Sector>, data: seq<nat>, x: nat, value: Byte) {
    x / 128 < |data| && data[x / 128] < |disk| && value == ByteAt(disk, data, x)
  }

  predicate IsNewByte(
    disk: seq<Sector>, data: seq<nat>, length: nat, position: nat, bytes: seq<Byte>, x: nat, value: Byte)
  {
    && x / 128 < |data| && data[x / 128] < |disk|
    && value == NewByte(disk, data, length, position, bytes, x)
  }

  predicate OldOrZero(disk: seq<Sector>, data: seq<nat>, length: nat, x: nat, value: Byte) {
    if x < length then HasByte(disk, data, x, value) else value == 0
  }

  /** The sector of a byte up to the last sector of a request exists. */
  lemma InRange(disk: seq<Sector>, data: seq<nat>, length: nat, lastSector: nat, x: nat)
    requires Layout(disk, data, length) && lastSector * 128 < length && x < (lastSector + 1) * 128
    ensures x / 128 < |data| && data[x / 128] < |disk|
  {
    assert (lastSector * 128) / 128 == lastSector;
  }

  lemma LayoutParts(disk: seq<Sector>, data: seq<nat>, length: nat)
    requires Layout(disk, data, length)
    ensures Distinct(data) && forall j :: 0 <= j < |data| ==> data[j] < |disk|
  {
  }

  lemma LayoutOfSize(disk: seq<Sector>, disk': seq<Sector>, data: seq<nat>, length: nat)
    requires Layout(disk, data, length) && |disk'| == |disk|
    ensures Layout(disk', data, length)
  {
  }

  lemma SliceRead(disk: seq<Sector>, data: seq<nat>, length: nat, into: seq<Byte>, at: nat, position: nat, count: nat)
    requires Layout(disk, data, length) && at + count <= |into| && position + count <= length
    requires forall j :: at <= j < at + count ==> HasByte(disk, data, position + (j - at), into[j])
    ensures into[at..at + count] == Bytes(disk, data, length)[position..position + count]
  {
    hide Bytes;
    var got, wanted := into[at..at + count], Bytes(disk, data, length)[position..position + count];
    forall j | 0 <= j < count ensures got[j] == wanted[j] {
      assert HasByte(disk, data, position + ((at + j) - at), into[at + j]);
    }
  }

  lemma NewByteIs(disk: seq<Sector>, data: seq<nat>, length: nat, position: nat, bytes: seq<Byte>, x: nat, value: Byte)
    requires x / 128 < |data| && data[x / 128] < |disk|
    requires if position <= x < position + |bytes| then value == bytes[x - position] else OldOrZero(disk, data, length, x, value)
    ensures IsNewByte(disk, data, length, position, bytes, x, value)
  {
  }

  /** The sectors from `first` up to `i` have their new bytes, the others are as they were. */
  ghost predicate PartWritten(
    disk: seq<Sector>, disk': seq<Sector>, data: seq<nat>, length: nat, position: nat, bytes: seq<Byte>, first: nat, i: nat)
  {
    && |disk'| == |disk| && i <= |data| && (forall j :: 0 <= j < |data| ==> data[j] < |disk|)
    && (forall x: nat :: first <= x / 128 < i ==>
          disk'[data[x / 128]][x % 128] == NewByte(disk, data, length, position, bytes, x))
    && (forall s :: 0 <= s < |disk| && (forall j :: first <= j < i ==> data[j] != s) ==> disk'[s] == disk[s])
  }

  lemma NothingWritten(disk: seq<Sector>, data: seq<nat>, length: nat, position: nat, bytes: seq<Byte>, first: nat)
    requires first <= |data| && forall j :: 0 <= j < |data| ==> data[j] < |disk|
    ensures PartWritten(disk, disk, data, length, position, bytes, first, first)
  {
  }

  lemma PartWrittenStep(
    disk: seq<Sector>, disk': seq<Sector>, data: seq<nat>, length: nat, position: nat, bytes: seq<Byte>, first: nat, i: nat,
    sector: Sector)
    requires first <= i < |data| && Distinct(data) && PartWritten(disk, disk', data, length, position, bytes, first, i)
    requires forall b :: 0 <= b < 128 ==> IsNewByte(disk, data, length, position, bytes, i * 128 + b, sector[b])
    ensures PartWritten(disk, disk'[data[i] := sector], data, length, position, bytes, first, i + 1)
  {
    hide NewByte;
    forall x: nat | first <= x / 128 < i + 1
      ensures disk'[data[i] := sector][data[x / 128]][x % 128] == NewByte(disk, data, length, position, bytes, x)
    {
      if x / 128 == i {
        assert IsNewByte(disk, data, length, position, bytes, i * 128 + x % 128, sector[x % 128]);
      }
    }
  }

  lemma AllWritten(disk: seq<Sector>, disk': seq<Sector>, data: seq<nat>, length: nat, position: nat, bytes: seq<Byte>)
    requires Layout(disk, data, length) && |bytes| > 0
    requires PartWritten(disk, disk', data, length, position, bytes, position / 128, (position + |bytes| - 1) / 128 + 1)
    ensures IsWritten(disk, disk', data, length, position, bytes)
  {
    hide NewByte;
    forall s | 0 <= s < |disk| && (forall j :: 0 <= j < |data| && Touched(position, |bytes|, j) ==> data[j] != s)
      ensures disk'[s] == disk[s]
    {
      assert forall j :: position / 128 <= j < (position + |bytes| - 1) / 128 + 1 ==> Touched(position, |bytes|, j);
    }
  }

  lemma SectorOf(i: nat, o: nat)
    requires o < 128
    ensures (i * 128 + o) / 128 == i && (i * 128 + o) % 128 == o
  {
  }

  class OpenFile {
    const hdr: FileHeader
    const disk: array<Sector>
    var seekPosition: nat

    ghost predicate Valid()
      reads this, hdr, hdr.Repr, disk
    {
      && hdr.Valid() && Filled(hdr.direct, hdr.View()) && disk as object !in hdr.Repr
      && this as object !in hdr.Repr && this as object != disk
      && Layout(disk[..], DataOf(hdr.View()), FileHeaders.Length(hdr.View()))
    }

    ghost function Data(): seq<nat>
      requires hdr.Valid()
      reads hdr, hdr.Repr
    {
      DataOf(hdr.View())
    }

    ghost function Size(): nat
      requires hdr.Valid()
      reads hdr, hdr.Repr
    {
      FileHeaders.Length(hdr.View())
    }

    ghost function Contents(): (s: seq<Byte>)
      requires Valid()
      reads this, hdr, hdr.Repr, disk
      ensures |s| == Size()
    {
      Bytes(disk[..], Data(), Size())
    }

    constructor (hdr: FileHeader, disk: array<Sector>)
      requires hdr.Valid() && Filled(hdr.direct, hdr.View()) && disk as object !in hdr.Repr
      requires Layout(disk[..], DataOf(hdr.View()), FileHeaders.Length(hdr.View()))
      ensures Valid() && this.hdr == hdr && this.disk == disk && seekPosition == 0
    {
      this.hdr, this.disk := hdr, disk;
      seekPosition := 0;
    }

    /** The sum over the chain of headers. */
    method Length() returns (length: nat)
      requires hdr.Valid()
      ensures length == Size()
    {
      length := 0;
      var nextHdr: FileHeader? := hdr;
      while nextHdr != null
        invariant nextHdr != null ==> nextHdr.Valid() && length + FileHeaders.Length(nextHdr.View()) == Size()
        invariant nextHdr == null ==> length == Size()
        decreases if nextHdr == null then {} else nextHdr.Repr
      {
        length := length + nextHdr.FileLength();
        nextHdr := nextHdr.nextFileHeader;
      }
    }

    /** Reads whole sectors first .. last into a fresh buffer. */
    method ReadSectors(firstSector: nat, lastSector: nat, buf: array<Byte>)
      requires Valid() && firstSector <= lastSector && lastSector * SECTOR_SIZE < Size()
      requires buf.Length == (1 + lastSector - firstSector) * SECTOR_SIZE
      requires buf as object !in hdr.Repr && buf as object != disk && buf as object != this
      modifies buf
      ensures forall b :: 0 <= b < buf.Length ==> HasByte(disk[..], Data(), firstSector * 128 + b, buf[b])
    {
      hide Filled, DataOf, FileHeaders.Length;
      ghost var d, data := disk[..], Data();
      var i := firstSector;
      while i <= lastSector
        invariant firstSector <= i <= lastSector + 1
        invariant Valid() && disk[..] == d && Data() == data
        invariant forall b :: 0 <= b < (i - firstSector) * 128 ==> HasByte(d, data, firstSector * 128 + b, buf[b])
      {
        var sector := hdr.ByteToSector(i * SECTOR_SIZE);
        var base := (i - firstSector) * SECTOR_SIZE;
        forall o | 0 <= o < SECTOR_SIZE {
          buf[base + o] := disk[sector][o];
        }
        forall b | base <= b < base + SECTOR_SIZE ensures HasByte(d, data, firstSector * 128 + b, buf[b]) {
          SectorOf(i, b - base);
          assert buf[base + (b - base)] == d[sector][b - base];
        }
        i := i + 1;
      }
    }

    ghost predicate Apart(buffer: array<Byte>)
      reads hdr
    {
      buffer as object !in hdr.Repr && buffer as object != disk && buffer as object != this
    }

    /** Up to `numBytes` from `position` on into `into`, from index `at` on. */
    method ReadAt(into: array<Byte>, at: nat, numBytes: int, position: nat) returns (result: nat)
      requires Valid() && Apart(into) && at + Amount(numBytes, position, Size()) <= into.Length
      modifies into
      ensures Valid() && result == Amount(numBytes, position, Size())
      ensures disk[..] == old(disk[..]) && hdr.View() == old(hdr.View())
      ensures forall j :: at <= j < at + result ==> HasByte(disk[..], Data(), position + (j - at), into[j])
      ensures result > 0 ==> into[at..at + result] == Contents()[position..position + result]
      ensures forall j :: 0 <= j < into.Length && !(at <= j < at + result) ==> into[j] == old(into[j])
    {
      hide Filled, Layout, DataOf, FileHeaders.Length, HasByte, Bytes;
      ghost var d, data := disk[..], Data();
      var fileLength := Length();
      if numBytes <= 0 || position >= fileLength {
        return 0;
      }
      result := if position + numBytes > fileLength then fileLength - position else numBytes;
      var firstSector := position / SECTOR_SIZE;
      var lastSector := (position + result - 1) / SECTOR_SIZE;
      var numSectors := 1 + lastSector - firstSector;
      var buf := new Byte[numSectors * SECTOR_SIZE];
      ReadSectors(firstSector, lastSector, buf);
      var skip := position - firstSector * SECTOR_SIZE;
      forall j | 0 <= j < result {
        into[at + j] := buf[skip + j];
      }
      forall j | at <= j < at + result ensures HasByte(d, data, position + (j - at), into[j]) {
        assert into[at + (j - at)] == buf[skip + (j - at)];
      }
      SliceRead(d, data, Size(), into[..], at, position, result);
      assert into[..][at..at + result] == into[at..at + result];
    }

    /** One sector of the file into a buffer of zeros, at index `at`. */
    method ReadSector(buf: array<Byte>, at: nat, sector: nat)
      requires Valid() && Apart(buf) && at + 128 <= buf.Length && sector * 128 < Size()
      requires forall b :: at <= b < at + 128 ==> buf[b] == 0
      modifies buf
      ensures Valid() && disk[..] == old(disk[..]) && hdr.View() == old(hdr.View())
      ensures forall b :: at <= b < at + 128 ==> OldOrZero(disk[..], Data(), Size(), sector * 128 + (b - at), buf[b])
      ensures forall b :: 0 <= b < buf.Length && !(at <= b < at + 128) ==> buf[b] == old(buf[b])
    {
      hide Filled, Layout, DataOf, FileHeaders.Length, HasByte, Bytes, Contents;
      var n := ReadAt(buf, at, SECTOR_SIZE, sector * SECTOR_SIZE);
      assert n == Amount(128, sector * 128, Size());
    }

    /** A buffer for the touched sectors, with the file's bytes where the request does not cover them, zero past its end. */
    method ReadEnds(position: nat, count: nat) returns (buf: array<Byte>)
      requires Valid() && 0 < count && position + count <= Size()
      ensures Valid() && fresh(buf) && disk[..] == old(disk[..]) && hdr.View() == old(hdr.View())
      ensures var first, last := position / 128, (position + count - 1) / 128;
        && buf.Length == (1 + last - first) * 128
        && forall b :: 0 <= b < buf.Length && !(position <= first * 128 + b < position + count) ==>
             OldOrZero(disk[..], Data(), Size(), first * 128 + b, buf[b])
    {
      hide Filled, Layout, DataOf, FileHeaders.Length, OldOrZero, Bytes, Contents;
      ghost var d, data, length := disk[..], Data(), Size();
      var firstSector := position / SECTOR_SIZE;
      var lastSector := (position + count - 1) / SECTOR_SIZE;
      var numSectors := 1 + lastSector - firstSector;
      buf := new Byte[numSectors * SECTOR_SIZE](i => 0);
      var firstAligned := position == firstSector * SECTOR_SIZE;
      var lastAligned := position + count == (lastSector + 1) * SECTOR_SIZE;
      ghost var base := firstSector * 128;
      if !firstAligned {
        ReadSector(buf, 0, firstSector);
      }
      assert forall b :: 0 <= b < buf.Length && (base + b < position || (firstSector == lastSector && !firstAligned)) ==>
        OldOrZero(d, data, length, base + b, buf[b]);
      if !lastAligned && (firstSector != lastSector || firstAligned) {
        ReadSector(buf, (lastSector - firstSector) * SECTOR_SIZE, lastSector);
      }
    }

    /** The touched sectors as they will be written back. */
    method FillBuffer(from: array<Byte>, count: nat, position: nat) returns (buf: array<Byte>)
      requires Valid() && Apart(from) && 0 < count <= from.Length && position + count <= Size()
      ensures Valid() && fresh(buf) && disk[..] == old(disk[..]) && hdr.View() == old(hdr.View())
      ensures var first, last := position / 128, (position + count - 1) / 128;
        && buf.Length == (1 + last - first) * 128
        && forall b :: 0 <= b < buf.Length ==>
             IsNewByte(disk[..], Data(), Size(), position, from[..count], first * 128 + b, buf[b])
    {
      hide Filled, Layout, DataOf, FileHeaders.Length, HasByte, NewByte, OldOrZero;
      buf := ReadEnds(position, count);
      ghost var d, data, length := disk[..], Data(), Size();
      var firstSector := position / SECTOR_SIZE;
      ghost var base, bytes := firstSector * 128, from[..count];
      var skip := position - firstSector * SECTOR_SIZE;
      forall j | 0 <= j < count {
        buf[skip + j] := from[j];
      }
      forall b | 0 <= b < buf.Length ensures IsNewByte(d, data, length, position, bytes, base + b, buf[b]) {
        InRange(d, data, length, (position + count - 1) / 128, base + b);
        assert position <= base + b < position + count ==> buf[b] == buf[skip + (base + b - position)];
        NewByteIs(d, data, length, position, bytes, base + b, buf[b]);
      }
      assert disk[..] == d && Data() == data && Size() == length && from[..count] == bytes;
    }

    /** Up to `numBytes` of `from` to `position`. */
    method WriteAt(from: array<Byte>, numBytes: int, position: nat) returns (result: nat)
      requires Valid() && Apart(from) && Amount(numBytes, position, Size()) <= from.Length
      modifies disk
      ensures Valid() && hdr.View() == old(hdr.View()) && result == Amount(numBytes, position, Size())
      ensures IsWritten(old(disk[..]), disk[..], Data(), Size(), position, from[..result])
      ensures Contents() == Put(old(Contents()), position, from[..result])
    {
      hide Filled, Layout, DataOf, FileHeaders.Length, NewByte, Bytes, Put;
      ghost var d, data, length := disk[..], Data(), Size();
      var fileLength := Length();
      if numBytes <= 0 || position >= fileLength {
        WriteSplices(d, d, data, length, position, []);
        assert from[..0] == [];
        return 0;
      }
      result := if position + numBytes > fileLength then fileLength - position else numBytes;
      ghost var bytes := from[..result];
      var buf := FillBuffer(from, result, position);
      WriteSectors(buf, position, result, bytes);
      WriteSplices(d, disk[..], data, length, position, bytes);
    }

    /** The loop of WriteAt over the touched sectors. */
    method WriteSectors(buf: array<Byte>, position: nat, count: nat, ghost bytes: seq<Byte>)
      requires Valid() && Apart(buf) && 0 < count == |bytes| && position + count <= Size()
      requires var first, last := position / 128, (position + count - 1) / 128;
        && buf.Length == (1 + last - first) * 128
        && forall b :: 0 <= b < buf.Length ==> IsNewByte(disk[..], Data(), Size(), position, bytes, first * 128 + b, buf[b])
      modifies disk
      ensures Valid() && hdr.View() == old(hdr.View())
      ensures IsWritten(old(disk[..]), disk[..], Data(), Size(), position, bytes)
    {
      hide Filled, Layout, DataOf, FileHeaders.Length, NewByte, IsNewByte, PartWritten, IsWritten;
      ghost var d, data, length, filled := disk[..], Data(), Size(), buf[..];
      var firstSector := position / SECTOR_SIZE;
      var lastSector := (position + count - 1) / SECTOR_SIZE;
      LayoutParts(d, data, length);
      InRange(d, data, length, lastSector, lastSector * 128);
      SectorOf(lastSector, 0);
      NothingWritten(d, data, length, position, bytes, firstSector);
      var i := firstSector;
      while i <= lastSector
        invariant firstSector <= i <= lastSector + 1
        invariant hdr.Valid() && Filled(hdr.direct, hdr.View()) && hdr.View() == old(hdr.View()) && buf[..] == filled
        invariant PartWritten(d, disk[..], data, length, position, bytes, firstSector, i)
      {
        var sector := hdr.ByteToSector(i * SECTOR_SIZE);
        var base := (i - firstSector) * SECTOR_SIZE;
        SectorOf(i, 0);
        var whole: Sector := buf[base..base + SECTOR_SIZE];
        forall b | 0 <= b < 128 ensures IsNewByte(d, data, length, position, bytes, i * 128 + b, whole[b]) {
          assert whole[b] == filled[base + b];
        }
        PartWrittenStep(d, disk[..], data, length, position, bytes, firstSector, i, whole);
        disk[sector] := whole;
        i := i + 1;
      }
      AllWritten(d, disk[..], data, length, position, bytes);
      LayoutOfSize(d, disk[..], data, length);
    }

    method Seek(position: nat)
      modifies this
      ensures seekPosition == position
    {
      seekPosition := position;
    }

    /** Reads on from the current position. */
    method Read(into: array<Byte>, numBytes: int) returns (result: nat)
      requires Valid() && Apart(into) && Amount(numBytes, seekPosition, Size()) <= into.Length
      modifies into, this`seekPosition
      ensures Valid() && result == Amount(numBytes, old(seekPosition), Size()) && seekPosition == old(seekPosition) + result
      ensures result > 0 ==> into[..result] == Contents()[old(seekPosition)..old(seekPosition) + result]
      ensures forall j :: result <= j < into.Length ==> into[j] == old(into[j])
    {
      hide Filled, Layout, DataOf, FileHeaders.Length, HasByte, Bytes, IsWritten;
      result := ReadAt(into, 0, numBytes, seekPosition);
      seekPosition := seekPosition + result;
    }

    /** Writes on from the current position. */
    method Write(from: array<Byte>, numBytes: int) returns (result: nat)
      requires Valid() && Apart(from) && Amount(numBytes, seekPosition, Size()) <= from.Length
      modifies disk, this`seekPosition
      ensures Valid() && hdr.View() == old(hdr.View())
      ensures result == Amount(numBytes, old(seekPosition), Size()) && seekPosition == old(seekPosition) + result
      ensures IsWritten(old(disk[..]), disk[..], Data(), Size(), old(seekPosition), from[..result])
      ensures Contents() == Put(old(Contents()), old(seekPosition), from[..result])
    {
      hide Filled, Layout, DataOf, FileHeaders.Length, HasByte, Bytes, IsWritten;
      result := WriteAt(from, numBytes, seekPosition);
      seekPosition := seekPosition + result;
    }
  }

  // ---------------------------------------------------------------- calls in a row

  /** A request for more than the file holds puts what fits. */
  lemma PutFits(s: seq<Byte>, position: nat, bytes: seq<Byte>)
    ensures Put(s, position, bytes[..Amount(|bytes|, position, |s|)]) == Put(s, position, bytes)
  {
    hide Put;
  }

  /** Two calls of Write leave what one call with both buffers would. */
  method WriteTwice(file: OpenFile, a: array<Byte>, b: array<Byte>)
    requires file.Valid() && file.Apart(a) && file.Apart(b)
    modifies file.disk, file`seekPosition
    ensures file.Valid()
    ensures file.Contents() == Put(old(file.Contents()), old(file.seekPosition), a[..] + b[..])
  {
    hide OpenFile.Contents, Put, IsWritten, Filled, Layout;
    ghost var s, position := file.Contents(), file.seekPosition;
    var k := file.Write(a, a.Length);
    ghost var s' := file.Contents();
    PutFits(s, position, a[..]);
    var l := file.Write(b, b.Length);
    PutFits(s', position + k, b[..]);
    PutsConcatenate(s, position, a[..], b[..]);
  }

  /** What WriteAt writes, ReadAt at the same position reads. */
  method WriteThenRead(file: OpenFile, from: array<Byte>, into: array<Byte>, numBytes: nat, position: nat) returns (k: nat)
    requires file.Valid() && file.Apart(from) && file.Apart(into) && numBytes <= from.Length && numBytes <= into.Length
    requires position <= file.Size()
    modifies file.disk, into
    ensures file.Valid() && k == Amount(numBytes, position, file.Size()) && into[..k] == old(from[..k])
  {
    hide OpenFile.Contents, Put, IsWritten, HasByte, Filled, Layout;
    ghost var s, bytes := file.Contents(), from[..numBytes];
    k := file.WriteAt(from, numBytes, position);
    assert from[..k] == bytes[..k];
    PutFits(s, position, bytes);
    PutThenGet(s, position, bytes);
    var l := file.ReadAt(into, 0, numBytes, position);
    assert into[..k] == into[0..k];
  }

  // ---------------------------------------------------------------- files that share a disk

  /** A header that Allocate filled in lays its file out on the disk. */
  lemma AllocatedLaysOut(direct: Direct, disk: seq<Sector>, marked: set<nat>, n: nat, fileSize: int)
    requires n <= |disk| && Allocated(direct, marked, n, fileSize).header.Some?
    ensures var h := Allocated(direct, marked, n, fileSize).header.value;
      FileHeaders.Length(h) == Made(direct, fileSize) && Layout(disk, DataOf(h), Made(direct, fileSize))
  {
    hide Allocated;
    OwnsNewSectors(direct, marked, n, fileSize);
    AllocatedFilled(direct, marked, n, fileSize);
    var h := Allocated(direct, marked, n, fileSize).header.value;
    forall j | 0 <= j < |DataOf(h)| ensures DataOf(h)[j] < |disk| {
      assert DataOf(h)[j] in Owned(h);
    }
    forall x: nat | x < Made(direct, fileSize) ensures x / 128 < |DataOf(h)| {
      EnoughSectors(direct, h, x);
    }
  }

  /** Among the live files of a volume, a write to one leaves the bytes of every other as they were. */
  lemma LiveFilesApart(v: Volume, n: nat, reserved: set<nat>, disk: seq<Sector>, disk': seq<Sector>, i: nat, j: nat,
                       length: nat, position: nat, bytes: seq<Byte>, otherLength: nat)
    requires FileHeaders.Inv(v, n, reserved) && i in v.files && j in v.files && i != j
    requires Layout(disk, DataOf(v.files[i]), length) && Layout(disk, DataOf(v.files[j]), otherLength)
    requires IsWritten(disk, disk', DataOf(v.files[i]), length, position, bytes)
    ensures Layout(disk', DataOf(v.files[j]), otherLength)
    ensures Bytes(disk', DataOf(v.files[j]), otherLength) == Bytes(disk, DataOf(v.files[j]), otherLength)
  {
    var data, other := DataOf(v.files[i]), DataOf(v.files[j]);
    forall k, l | 0 <= k < |data| && 0 <= l < |other| ensures data[k] != other[l] {
      assert data[k] in Owned(v.files[i]) && other[l] in Owned(v.files[j]);
    }
    hide FileHeaders.Inv, Owned, IsWritten, Layout;
    OtherFilesKept(disk, disk', data, length, position, bytes, other, otherLength);
  }
}
