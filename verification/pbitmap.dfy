/** Bitmaps kept in a file (filesys/pbitmap.cc). */
module PersistentBitmaps {
  import opened Bits
  import opened Memory
  import opened Bitmaps
  import opened OpenFiles

  /** The words of a bitmap as they lie in memory, least significant byte first. */
  function Image(words: seq<Word>): (r: seq<Byte>)
    ensures |r| == 4 * |words|
    ensures forall b :: 0 <= b < |r| ==> r[b] == ByteOf(words[b / 4], b % 4)
  {
    seq(4 * |words|, b requires 0 <= b < 4 * |words| => ByteOf(words[b / 4], b % 4))
  }

  function FromImage(bytes: seq<Byte>): (r: seq<Word>)
    requires |bytes| % 4 == 0
    ensures |r| == |bytes| / 4
    ensures forall w :: 0 <= w < |r| ==> r[w] == WordOf(bytes[4 * w], bytes[4 * w + 1], bytes[4 * w + 2], bytes[4 * w + 3])
  {
    seq(|bytes| / 4, w requires 0 <= w < |bytes| / 4 =>
      WordOf(bytes[4 * w], bytes[4 * w + 1], bytes[4 * w + 2], bytes[4 * w + 3]))
  }

  lemma ImageInverse(words: seq<Word>)
    ensures FromImage(Image(words)) == words
  {
    hide Image, FromImage, WordOf, ByteOf;
    forall w | 0 <= w < |words| ensures FromImage(Image(words))[w] == words[w] {
      WordFromBytes(words[w]);
    }
  }

  lemma InverseImage(bytes: seq<Byte>)
    requires |bytes| % 4 == 0
    ensures Image(FromImage(bytes)) == bytes
  {
    hide Image, FromImage, WordOf, ByteOf;
    forall b | 0 <= b < |bytes| ensures Image(FromImage(bytes))[b] == bytes[b] {
      var w := b / 4;
      WordBytes(bytes[4 * w], bytes[4 * w + 1], bytes[4 * w + 2], bytes[4 * w + 3]);
    }
  }

  lemma ByteIs(w: Word, k: nat)
    requires k < 4
    ensures w / Pow2(8 * k) >= 0 && ByteOf(w, k) == w / Pow2(8 * k) % Pow2(8)
  {
    assert Pow2(8) == 0x100 && Pow2(16) == 0x1_0000 && Pow2(24) == 0x100_0000;
  }

  lemma ByteBit(w: Word, k: nat, i: nat)
    requires k < 4 && i < 8
    ensures Bit(ByteOf(w, k), i) <==> Bit(w, 8 * k + i)
  {
    hide Bit, Pow2, ByteOf;
    ByteIs(w, k);
    ModBit(w / Pow2(8 * k), 8, i);
    OverBit(w, 8 * k, i);
  }

  /** Number `i` is in the set exactly if bit i % 8 of byte i / 8 of the file is set. */
  lemma ImageBit(words: seq<Word>, i: nat)
    requires i < 32 * |words|
    ensures i / 8 < |Image(words)|
    ensures InWords(words, i) <==> Bit(Image(words)[i / 8], i % 8)
  {
    hide Bit, ByteOf, Image;
    ByteBit(words[i / 32], i / 8 % 4, i % 8);
    assert i / 8 / 4 == i / 32 && 8 * (i / 8 % 4) + i % 8 == i % 32;
  }

  /** What WriteBack makes of the file. */
  function Stored(content: seq<Byte>, words: seq<Word>): seq<Byte> {
    Put(content, 0, Image(words))
  }

  /** What FetchFrom makes of the words: bytes past the end of the file stay as they were. */
  function Fetched(words: seq<Word>, content: seq<Byte>): seq<Word> {
    var k := Amount(4 * |words|, 0, |content|);
    FromImage(content[..k] + Image(words)[k..])
  }

  /** Fetching what was written back restores the bitmap, whatever it held in between, exactly if the file holds all of
      it or what it held agrees past the end of the file. */
  lemma RestoredIff(words: seq<Word>, between: seq<Word>, content: seq<Byte>)
    requires |between| == |words|
    ensures Fetched(between, Stored(content, words)) == words <==>
      |content| >= 4 * |words| || Image(between)[|content|..] == Image(words)[|content|..]
  {
    hide Image, FromImage, Put;
    var image, k := Image(words), Amount(4 * |words|, 0, |content|);
    var mixed := Stored(content, words)[..k] + Image(between)[k..];
    assert Stored(content, words)[..k] == image[..k];
    assert image == image[..k] + image[k..];
    ImageInverse(words);
    InverseImage(mixed);
    InverseImage(image);
    assert |content| < 4 * |words| && |words| > 0 ==> k == |content|;
    if k == |image| {
      assert mixed == image;
    } else if Image(between)[k..] == image[k..] {
      assert mixed == image;
    } else {
      assert mixed[k..] == Image(between)[k..];
      assert mixed != image;
    }
  }

  /** The bytes of the map, as the pointer cast in the calls below gives them. */
  method AsBytes(bitmap: Bitmap) returns (bytes: array<Byte>)
    requires bitmap.Valid()
    ensures fresh(bytes) && bytes[..] == Image(bitmap.words[..])
  {
    hide ByteOf;
    bytes := new Byte[4 * bitmap.words.Length];
    forall b | 0 <= b < bytes.Length {
      bytes[b] := ByteOf(bitmap.words[b / 4], b % 4);
    }
  }

  method WriteBack(bitmap: Bitmap, file: OpenFile)
    requires bitmap.Valid() && file.Valid()
    modifies file.disk
    ensures file.Valid() && file.Contents() == Stored(old(file.Contents()), old(bitmap.words[..]))
  {
    var bytes := AsBytes(bitmap);
    ghost var image := bytes[..];
    var n := file.WriteAt(bytes, bytes.Length, 0);
    PutFits(old(file.Contents()), 0, image);
  }

  method FetchFrom(bitmap: Bitmap, file: OpenFile)
    requires bitmap.Valid() && file.Valid() && bitmap.words as object !in file.hdr.Repr
    requires bitmap.words as object != file.disk && bitmap.words as object != file
    modifies bitmap.words
    ensures bitmap.words[..] == Fetched(old(bitmap.words[..]), old(file.Contents()))
  {
    hide WordOf;
    var bytes := ReadOver(bitmap, file);
    forall w | 0 <= w < bitmap.words.Length {
      bitmap.words[w] := WordOf(bytes[4 * w], bytes[4 * w + 1], bytes[4 * w + 2], bytes[4 * w + 3]);
    }
  }

  /** ReadAt into the bytes of the map. */
  method ReadOver(bitmap: Bitmap, file: OpenFile) returns (bytes: array<Byte>)
    requires bitmap.Valid() && file.Valid()
    ensures fresh(bytes) && bytes.Length == 4 * bitmap.words.Length
    ensures var content := file.Contents();
      var k := Amount(bytes.Length, 0, |content|);
      bytes[..] == content[..k] + Image(bitmap.words[..])[k..]
  {
    hide OpenFile.Valid, OpenFile.Contents, HasByte, Image;
    bytes := AsBytes(bitmap);
    ghost var image, content := bytes[..], file.Contents();
    var n := file.ReadAt(bytes, 0, bytes.Length, 0);
    assert n > 0 ==> bytes[0..n] == content[0..n];
    assert bytes[n..] == image[n..];
  }
}
