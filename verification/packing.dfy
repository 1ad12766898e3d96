/** The `.caravel.c` payload the assembler writes: the image reversed, read
    four bytes at a time as big-endian 32-bit words (the last address in the
    most significant byte of the first word), then three fixed words for the
    processor's registers. Only the numbers are modelled, not their text. */
module Packing {
  import opened Assembler

  const ImageWords: nat := 64

  /** The register words written after the memory: TEMP/STATUS_CTRL/CNT,
      IO_OUT/IO_IN/SEG_EXE (0xFF), and ACC/IR/PC/SEG/CU (2). */
  const Trailer: seq<nat> := [0, 0xFF, 0x2]

  const PayloadWords: nat := 67

  predicate IsByte(v: int) {
    0 <= v < 256
  }

  /** An image every slot of which holds a byte, so that `{v:02x}` writes
      exactly two hex digits per slot. */
  predicate IsByteImage(image: Image) {
    |image| == ImageSize && forall a :: 0 <= a < |image| ==> IsByte(image[a])
  }

  /** `list.reverse()`. */
  function Reverse<T>(s: seq<T>): (r: seq<T>)
    ensures |r| == |s|
    ensures forall j :: 0 <= j < |s| ==> r[j] == s[|s| - 1 - j]
  {
    seq(|s|, j requires 0 <= j < |s| => s[|s| - 1 - j])
  }

  /** Four bytes written as `{b0:02x}{b1:02x}{b2:02x}{b3:02x}`, read as one
      number. */
  function Word(b0: int, b1: int, b2: int, b3: int): int {
    ((b0 * 256 + b1) * 256 + b2) * 256 + b3
  }

  /** The four bytes of a 32-bit word, most significant first. */
  function WordBytes(w: int): seq<int> {
    var x2 := w / 256;
    var x1 := x2 / 256;
    [(x1 / 256) % 256, x1 % 256, x2 % 256, w % 256]
  }

  /** One step of reading a byte off the low end. */
  lemma ByteStep(x: int, b: int)
    requires IsByte(b)
    ensures (x * 256 + b) / 256 == x && (x * 256 + b) % 256 == b
  {
  }

  /** Four bytes packed into a word come back out, and the word is below
      2^32. */
  lemma {:induction false} WordBytesOfWord(b0: int, b1: int, b2: int, b3: int)
    requires IsByte(b0) && IsByte(b1) && IsByte(b2) && IsByte(b3)
    ensures 0 <= Word(b0, b1, b2, b3) < 0x1_0000_0000
    ensures WordBytes(Word(b0, b1, b2, b3)) == [b0, b1, b2, b3]
  {
    var x1 := b0 * 256 + b1;
    var x2 := x1 * 256 + b2;
    ByteStep(b0, b1);
    ByteStep(x1, b2);
    ByteStep(x2, b3);
    ByteStep(0, b0);
  }

  /** And a word below 2^32 is the packing of its four bytes. */
  lemma WordOfWordBytes(w: int)
    requires 0 <= w < 0x1_0000_0000
    ensures forall i :: 0 <= i < 4 ==> IsByte(WordBytes(w)[i])
    ensures Word(WordBytes(w)[0], WordBytes(w)[1], WordBytes(w)[2], WordBytes(w)[3]) == w
  {
    var x2 := w / 256;
    var x1 := x2 / 256;
    assert x1 / 256 < 256;
  }

  /** The `.caravel.c` words for an image: sixty-four memory words, then the
      trailer. Word `k` carries addresses `255-4k` down to `252-4k`. */
  function Pack(image: Image): (words: seq<int>)
    requires IsByteImage(image)
    ensures |words| == PayloadWords
    ensures forall k :: 0 <= k < ImageWords ==>
      WordBytes(words[k]) == [image[255 - 4 * k], image[254 - 4 * k], image[253 - 4 * k], image[252 - 4 * k]]
    ensures forall k :: 0 <= k < PayloadWords ==> 0 <= words[k] < 0x1_0000_0000
    ensures words[ImageWords..] == Trailer
  {
    var r := Reverse(image);
    var memory := seq(ImageWords, k requires 0 <= k < ImageWords =>
      Word(r[4 * k], r[4 * k + 1], r[4 * k + 2], r[4 * k + 3]));
    forall k | 0 <= k < ImageWords
      ensures WordBytes(memory[k]) == [image[255 - 4 * k], image[254 - 4 * k], image[253 - 4 * k], image[252 - 4 * k]]
      ensures 0 <= memory[k] < 0x1_0000_0000
    {
      WordBytesOfWord(r[4 * k], r[4 * k + 1], r[4 * k + 2], r[4 * k + 3]);
    }
    memory + Trailer
  }

  /** The image a payload loads into memory: address `a` is byte
      `(255 - a) % 4` of word `(255 - a) / 4`. */
  function Unpack(words: seq<int>): (image: Image)
    requires |words| >= ImageWords
    ensures |image| == ImageSize
  {
    seq(ImageSize, a requires 0 <= a < ImageSize =>
      var (k, i) := Place(a);
      WordBytes(words[k])[i])
  }

  /** Where address `a` sits in the payload: word `k`, byte `i` counting
      from the most significant. */
  function Place(a: nat): (p: (nat, nat))
    requires a < ImageSize
    ensures p.0 < ImageWords && p.1 < 4
    ensures 255 - a == 4 * p.0 + p.1
  {
    ((255 - a) / 4, (255 - a) % 4)
  }

  /** Loading a packed image gives the image back. */
  lemma UnpackPack(image: Image)
    requires IsByteImage(image)
    ensures Unpack(Pack(image)) == image
  {
    var words := Pack(image);
    forall a | 0 <= a < ImageSize
      ensures Unpack(words)[a] == image[a]
    {
      var (k, i) := Place(a);
    }
  }

  /** Two 32-bit words with the same bytes are the same word. */
  lemma SameBytesSameWord(u: int, v: int)
    requires 0 <= u < 0x1_0000_0000 && 0 <= v < 0x1_0000_0000
    requires WordBytes(u) == WordBytes(v)
    ensures u == v
  {
    WordOfWordBytes(u);
    WordOfWordBytes(v);
  }

  /** Byte `i` of word `k` of a payload is what `Unpack` puts at address
      `255 - 4k - i`. */
  lemma UnpackAt(words: seq<int>, k: nat, i: nat)
    requires |words| >= ImageWords && k < ImageWords && i < 4
    ensures Unpack(words)[255 - 4 * k - i] == WordBytes(words[k])[i]
  {
    assert Place(255 - 4 * k - i) == (k, i);
  }

  /** Packing the image loaded from a payload of 32-bit words with the
      fixed trailer gives the payload back. */
  lemma PackUnpack(words: seq<int>)
    requires |words| == PayloadWords && words[ImageWords..] == Trailer
    requires forall k :: 0 <= k < ImageWords ==> 0 <= words[k] < 0x1_0000_0000
    ensures IsByteImage(Unpack(words))
    ensures Pack(Unpack(words)) == words
  {
    var image := Unpack(words);
    forall a | 0 <= a < ImageSize
      ensures IsByte(image[a])
    {
      WordOfWordBytes(words[Place(a).0]);
    }
    var packed := Pack(image);
    forall k | 0 <= k < ImageWords
      ensures packed[k] == words[k]
    {
      UnpackAt(words, k, 0);
      UnpackAt(words, k, 1);
      UnpackAt(words, k, 2);
      UnpackAt(words, k, 3);
      assert WordBytes(packed[k]) == WordBytes(words[k]);
      SameBytesSameWord(packed[k], words[k]);
    }
    assert packed[ImageWords..] == words[ImageWords..];
  }

  /** The first instruction is the low byte of the last memory word. */
  lemma FirstInstructionLast(image: Image)
    requires IsByteImage(image)
    ensures Pack(image)[ImageWords - 1] % 256 == image[0]
    ensures WordBytes(Pack(image)[0])[0] == image[ImageSize - 1]
  {
    var w := Pack(image);
    assert WordBytes(w[ImageWords - 1])[3] == image[0];
    assert WordBytes(w[0])[0] == image[255];
    WordOfWordBytes(w[0]);
  }
}
