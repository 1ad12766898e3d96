/** The payload wb_port_test4 scans in: the `.caravel.c` words of a
    program that starts with CLR, followed by the register trailer. */
module Payload {
  import opened ScanHarness
  import Packing
  import opened PyText
  import Assembler
  import EncodingLaws

  /** `program[67]`, memory words from the top address down, then the
      register trailer. */
  const Program: seq<Word> := [
    0x0000_0000, 0x0000_0000, 0x0000_0000, 0x00f0_fd0f,
    0x0000_0000, 0x0000_0000, 0x0000_0000, 0x0000_0000,
    0x0000_0000, 0x0000_0000, 0x0000_0000, 0x0000_0000,
    0x0000_0000, 0x0000_0000, 0x0000_0000, 0x0000_0000,
    0x0000_0000, 0x0000_0000, 0x0000_0000, 0x0000_0000,
    0x0000_0000, 0x0000_0000, 0x0000_0000, 0x0000_0000,
    0x0000_0000, 0x0000_0000, 0x0000_0000, 0x0000_0000,
    0x0000_0000, 0x0000_0000, 0x0000_0000, 0x0000_0000,
    0x0000_0000, 0x0000_0000, 0x0000_0000, 0x0000_0000,
    0x0000_0000, 0x0000_0000, 0x0000_0000, 0x0000_0000,
    0x0000_0000, 0x0000_0000, 0x0000_0000, 0x0000_0000,
    0x0000_0000, 0x0000_0000, 0x0000_0000, 0x0000_0000,
    0x0000_0000, 0x0000_0000, 0x0000_00f0, 0x1f81_9ffd,
    0x0000_0000, 0x0000_0000, 0x0000_0000, 0x0000_0000,
    0x0000_0000, 0x0000_0000, 0xf093_1db4, 0xb480_be82,
    0xbdbc_fd1e, 0xfafd_b9b8, 0x8ffd_10fd, 0xbb00_affd,
    0x0000_0000, 0x0000_00ff, 0x0000_0002
  ]

  /** The payload's words read as numbers. */
  function Numbers(words: seq<Word>): (ns: seq<int>)
    ensures |ns| == |words|
    ensures forall k :: 0 <= k < |words| ==> ns[k] == words[k] as int && 0 <= ns[k] < 0x1_0000_0000
  {
    seq(|words|, k requires 0 <= k < |words| => words[k] as int)
  }

  /** The payload has the assembler's layout: sixty-four memory words and
      the fixed trailer, so it is the packing of the image it loads. */
  lemma ProgramIsPacked()
    ensures |Program| == PayloadLength == Packing.PayloadWords
    ensures Numbers(Program)[Packing.ImageWords..] == Packing.Trailer
    ensures Packing.IsByteImage(Packing.Unpack(Numbers(Program)))
    ensures Packing.Pack(Packing.Unpack(Numbers(Program))) == Numbers(Program)
  {
    var ns := Numbers(Program);
    assert ns[64] == 0 && ns[65] == 0xFF && ns[66] == 2;
    assert ns[Packing.ImageWords..] == Packing.Trailer;
    Packing.PackUnpack(ns);
  }

  /** The loaded image starts with CLR, the byte the assembler writes for
      the line `CLR`. */
  lemma ProgramStartsWithClear()
    ensures Assembler.Encode(0, "CLR", None) == Assembler.Ok(Packing.Unpack(Numbers(Program))[0])
  {
    var ns := Numbers(Program);
    Packing.UnpackAt(ns, 63, 3);
    assert ns[63] == 0xbb00_affd;
    assert Packing.WordBytes(ns[63])[3] == 0xFD;
    EncodingLaws.EncodeClear(0);
  }
}
