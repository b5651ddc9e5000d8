// Files as the ELF-64 object file format lays them out: what the loader reads is
// what such a file says.
module ElfFormat {
  import opened Bits
  import opened Words
  import opened Elf

  const ET_EXEC := 2
  const EM_X86_64 := 62

  // The file header: identification, then fields in the order and of the sizes that
  // the format gives.
  datatype Ehdr = Ehdr(ident: seq<Byte>, version: nat, entry: nat, phoff: nat, shoff: nat, flags: nat,
                       phnum: nat, shentsize: nat, shnum: nat, shstrndx: nat)

  predicate IsEhdr(e: Ehdr) {
    && |e.ident| == 16 && e.ident[..5] == [0x7F, 0x45, 0x4C, 0x46, 2]
    && e.entry < WORD_LIMIT && e.phoff < WORD_LIMIT && 0 < e.phnum < 0x1_0000
  }

  function EhdrBytes(e: Ehdr): seq<Byte> {
    e.ident + ToLE(ET_EXEC, 2) + ToLE(EM_X86_64, 2) + ToLE(e.version, 4)
    + ToLE(e.entry, 8) + ToLE(e.phoff, 8) + ToLE(e.shoff, 8)
    + ToLE(e.flags, 4) + ToLE(EHDR_SIZE, 2) + ToLE(PHDR_SIZE, 2) + ToLE(e.phnum, 2)
    + ToLE(e.shentsize, 2) + ToLE(e.shnum, 2) + ToLE(e.shstrndx, 2)
  }

  // A program header, likewise.
  function PhdrBytes(ph: Phdr, flags: nat, paddr: nat, align: nat): seq<Byte> {
    ToLE(ph.kind, 4) + ToLE(flags, 4) + ToLE(ph.offset, 8) + ToLE(ph.vaddr, 8) + ToLE(paddr, 8)
    + ToLE(ph.filesz, 8) + ToLE(ph.memsz, 8) + ToLE(align, 8)
  }

  // A number written after some bytes is read as that number.
  lemma WrittenField(s: seq<Byte>, before: seq<Byte>, w: nat, n: nat, after: seq<Byte>, elf: seq<Byte>, at: nat)
    requires s == before + ToLE(w, n) + after && FitsIn(w, n)
    requires at + |s| <= |elf| && elf[at..at + |s|] == s
    ensures Field(elf, at + |before|, n) == w
  {
    hide FromLE, ToLE, FitsIn;
    var p := at + |before|;
    assert |ToLE(w, n)| == n && |before| + n <= |s|;
    SliceOfSlice(elf, at, at + |s|, |before|, n);
    assert s[|before|..|before| + n] == ToLE(w, n);
    FromToLE(w, n);
  }

  lemma ShortFits(w: nat)
    ensures w < 0x1_0000 ==> FitsIn(w, 2)
    ensures w < 0x1_0000_0000 ==> FitsIn(w, 4)
  {
    var w1 := w / 256;
    var w2 := w1 / 256;
    var w3 := w2 / 256;
    assert w < 0x1_0000 ==> FitsIn(w2, 0) && FitsIn(w1, 1);
    assert w < 0x1_0000_0000 ==> FitsIn(w3, 1) && FitsIn(w2, 2) && FitsIn(w1, 3);
  }

  // A program header in the file is read as that header.
  lemma PhdrIsRead(elf: seq<Byte>, i: nat, ph: Phdr, flags: nat, paddr: nat, align: nat)
    requires HeadersInside(elf) && i < PhNum(elf) && ph.InWords() && ph.kind < 0x1_0000_0000
    requires PhOff(elf) + (i + 1) * PHDR_SIZE <= |elf|
    requires elf[PhOff(elf) + i * PHDR_SIZE..PhOff(elf) + (i + 1) * PHDR_SIZE] == PhdrBytes(ph, flags, paddr, align)
    ensures Header(elf, i) == ph
  {
    hide ToLE, FitsIn, Field;
    var at, s := PhOff(elf) + i * PHDR_SIZE, PhdrBytes(ph, flags, paddr, align);
    var a := ToLE(ph.kind, 4);
    var b := a + ToLE(flags, 4);
    var c := b + ToLE(ph.offset, 8);
    var d := c + ToLE(ph.vaddr, 8) + ToLE(paddr, 8);
    var e := d + ToLE(ph.filesz, 8);
    var last := ToLE(align, 8);
    ShortFits(ph.kind);
    WordFits(ph.offset);
    WordFits(ph.vaddr);
    WordFits(ph.filesz);
    WordFits(ph.memsz);
    WrittenField(s, [], ph.kind, 4, s[4..], elf, at);
    WrittenField(s, b, ph.offset, 8, s[16..], elf, at);
    WrittenField(s, c, ph.vaddr, 8, s[24..], elf, at);
    WrittenField(s, d, ph.filesz, 8, s[40..], elf, at);
    WrittenField(s, e, ph.memsz, 8, last, elf, at);
  }

  // A file header is accepted, and its fields are read.
  lemma EhdrIsRead(elf: seq<Byte>, e: Ehdr)
    requires IsEhdr(e) && |elf| >= EHDR_SIZE && elf[..EHDR_SIZE] == EhdrBytes(e)
    ensures IsExecutable(elf) && PhOff(elf) == e.phoff && PhNum(elf) == e.phnum && Field(elf, 24, 8) == e.entry
  {
    hide ToLE, FitsIn, Field;
    var s := EhdrBytes(e);
    var a := e.ident + ToLE(ET_EXEC, 2);
    var b := a + ToLE(EM_X86_64, 2) + ToLE(e.version, 4);
    var c := b + ToLE(e.entry, 8);
    var d := c + ToLE(e.phoff, 8) + ToLE(e.shoff, 8) + ToLE(e.flags, 4) + ToLE(EHDR_SIZE, 2);
    var f := d + ToLE(PHDR_SIZE, 2);
    ShortFits(ET_EXEC);
    ShortFits(EM_X86_64);
    ShortFits(PHDR_SIZE);
    ShortFits(e.phnum);
    WordFits(e.entry);
    WordFits(e.phoff);
    assert elf[0..0 + |s|] == s;
    WrittenField(s, e.ident, ET_EXEC, 2, s[18..], elf, 0);
    WrittenField(s, a, EM_X86_64, 2, s[20..], elf, 0);
    WrittenField(s, b, e.entry, 8, s[32..], elf, 0);
    WrittenField(s, c, e.phoff, 8, s[40..], elf, 0);
    WrittenField(s, d, PHDR_SIZE, 2, s[56..], elf, 0);
    WrittenField(s, f, e.phnum, 2, s[58..], elf, 0);
    forall k: nat | k < 5
      ensures elf[k] == [0x7F, 0x45, 0x4C, 0x46, 2][k]
    {
      assert elf[k] == elf[..EHDR_SIZE][k] == e.ident[k] == e.ident[..5][k];
    }
  }

  // Which bytes of the header are looked at: magic number and class, type, machine,
  // the size of a program header, and that there is one.
  lemma AcceptedIff(elf: seq<Byte>)
    requires |elf| >= EHDR_SIZE
    ensures IsExecutable(elf) <==>
            && elf[..5] == [0x7F, 0x45, 0x4C, 0x46, 2]
            && elf[16..18] == [2, 0] && elf[18..20] == [62, 0] && elf[54..56] == [56, 0] && elf[56..58] != [0, 0]
  {
    TwoBytes(elf, 16);
    TwoBytes(elf, 18);
    TwoBytes(elf, 54);
    TwoBytes(elf, 56);
    hide Field;
    var five := elf[..5];
    assert five[0] == elf[0] && five[1] == elf[1] && five[2] == elf[2] && five[3] == elf[3] && five[4] == elf[4];
  }

  lemma TwoBytes(elf: seq<Byte>, at: nat)
    requires at + 2 <= |elf|
    ensures var x: nat, y: nat := elf[at], elf[at + 1]; Field(elf, at, 2) == x + 256 * y
    ensures elf[at..at + 2] == [elf[at], elf[at + 1]]
  {
    var b := elf[at..at + 2];
    var x: nat, y: nat := b[0], b[1];
    assert b == [b[0], b[1]] && b[1..] == [b[1]] && b[1..][1..] == [];
    assert FromLE(b[1..]) == y;
    assert FromLE(b) == x + 256 * y;
  }

  // A program header is loaded exactly when its first four bytes are those of number 1.
  lemma LoadedIff(elf: seq<Byte>, i: nat)
    requires HeadersInside(elf) && i < PhNum(elf)
    ensures var at := PhOff(elf) + i * PHDR_SIZE;
            at + PHDR_SIZE <= |elf| && (IsSegment(elf, i) <==> elf[at..at + 4] == [1, 0, 0, 0])
  {
    hide Field;
    var at := PhOff(elf) + i * PHDR_SIZE;
    FourBytes(elf, at);
  }

  lemma FourBytes(elf: seq<Byte>, at: nat)
    requires at + 4 <= |elf|
    ensures Field(elf, at, 4) == 1 <==> elf[at..at + 4] == [1, 0, 0, 0]
  {
    var b := elf[at..at + 4];
    assert b == [b[0], b[1], b[2], b[3]];
    var w, x: nat, y: nat, z: nat := b[0], b[1], b[2], b[3];
    assert b[1..] == [b[1], b[2], b[3]] && b[1..][1..] == [b[2], b[3]];
    assert b[1..][1..][1..] == [b[3]] && b[1..][1..][1..][1..] == [];
    assert FromLE(b[1..][1..][1..]) == z;
    assert FromLE(b[1..][1..]) == y + 256 * z;
    assert FromLE(b) == w + 256 * (x + 256 * (y + 256 * z));
  }
}
