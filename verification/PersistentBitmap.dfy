/** filesys/pbitmap.cc: a bitmap whose words are kept in a file. */
module PersistentBitmaps {
  import opened Layout
  import opened Bitmaps
  import opened SectorStores
  import opened FileHeaders
  import opened OpenFiles

  function EncodeMap(words: seq<bv32>): (b: seq<byte>)
    ensures |b| == |words| * WORD_BYTES
  {
    Pack(words, EncodeWord, WORD_BYTES)
  }

  function DecodeMap(b: seq<byte>, count: nat): (words: seq<bv32>)
    requires |b| >= count * WORD_BYTES
    ensures |words| == count
  {
    Unpack(b, count, DecodeWord, WORD_BYTES)
  }

  lemma MapRoundTrip(words: seq<bv32>)
    ensures DecodeMap(EncodeMap(words), |words|) == words
  {
    forall w <- words ensures DecodeWord(EncodeWord(w)) == w {
      WordRoundTrip(w);
    }
    UnpackPack(words, EncodeWord, DecodeWord, WORD_BYTES);
  }

  /** Reads the file over the memory of the map. */
  method FetchFrom(freeMap: Bitmap, file: OpenFile)
    requires freeMap.Valid() && file.Valid() && file.hdr.numBytes == freeMap.words.Length * WORD_BYTES
    modifies freeMap.words
    ensures freeMap.words[..] == DecodeMap(file.Bytes(), freeMap.words.Length)
  {
    hide DivRoundUp, Header.Ok, FileBytes, DecodeMap;
    OkFacts(file.hdr.Image());
    var size := freeMap.words.Length * WORD_BYTES;
    var buf := new byte[size];
    var _ := file.ReadAt(buf, 0, size, 0);
    assert buf[..] == file.Bytes();
    var words := DecodeMap(buf[..], freeMap.words.Length);
    forall i | 0 <= i < freeMap.words.Length {
      freeMap.words[i] := words[i];
    }
  }

  method WriteBack(freeMap: Bitmap, file: OpenFile)
    requires freeMap.Valid() && file.Valid() && file.hdr.numBytes == freeMap.words.Length * WORD_BYTES
    modifies file.disk
    ensures file.Valid()
    ensures file.Bytes() == EncodeMap(freeMap.words[..])
    ensures OnlyData(old(file.disk.sectors), file.disk.sectors, file.hdr.Image())
  {
    hide DivRoundUp;
    OkFacts(file.hdr.Image());
    var size := freeMap.words.Length * WORD_BYTES;
    ghost var words := freeMap.words[..];
    var bytes := EncodeMap(freeMap.words[..]);
    var buf := new byte[size];
    forall i | 0 <= i < size {
      buf[i] := bytes[i];
    }
    assert buf[0..size] == bytes;
    var _ := file.WriteAt(buf, 0, size, 0);
    assert file.Bytes() == bytes;
    assert freeMap.words[..] == words;
  }
}
