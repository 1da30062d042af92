/** The layout of ELF headers (chapters 4 and 5 of the System V gABI, the 64-bit forms), written out field
    by field; the header reader of src/elf.c reads what the fields stand for. */
module ElfLayout {
  import opened Align
  import opened ElfFile

  /** The number that bytes stand for, the least significant first. */
  function Number(b: seq<bv8>): nat {
    if b == [] then 0 else b[0] as nat + 256 * Number(b[1..])
  }

  function Pow256(n: nat): nat { if n == 0 then 1 else 256 * Pow256(n - 1) }

  lemma {:induction false} NumberSplit(a: seq<bv8>, b: seq<bv8>)
    ensures Number(a + b) == Number(a) + Pow256(|a|) * Number(b)
  {
    if a == [] {
      assert a + b == b;
    } else {
      assert (a + b)[1..] == a[1..] + b;
      NumberSplit(a[1..], b);
      Distribute(Number(a[1..]), Pow256(|a| - 1), Number(b));
    }
  }

  lemma Distribute(x: nat, p: nat, y: nat)
    ensures 256 * (x + p * y) == 256 * x + (256 * p) * y
  {
    assert (256 * p) * y == 256 * (p * y);
  }

  /** The readers of 16, 32 and 64 bits read the numbers their bytes stand for. */
  lemma Read16(image: seq<bv8>, at: nat)
    requires at + 2 <= |image|
    ensures Le16(image, at) == Number(image[at..at + 2])
  {
    var b := image[at..at + 2];
    var c := [image[at + 1]];
    assert b[1..] == c && c[1..] == [];
    assert Number(c) == image[at + 1] as nat;
    assert Number(b) == b[0] as nat + 256 * Number(b[1..]);
  }

  lemma Read32(image: seq<bv8>, at: nat)
    requires at + 4 <= |image|
    ensures Le32(image, at) == Number(image[at..at + 4])
  {
    Read16(image, at);
    Read16(image, at + 2);
    NumberSplit(image[at..at + 2], image[at + 2..at + 4]);
    assert Pow256(2) == 0x1_0000;
    assert image[at..at + 2] + image[at + 2..at + 4] == image[at..at + 4];
  }

  lemma Read64(image: seq<bv8>, at: nat)
    requires at + 8 <= |image|
    ensures Le64(image, at) == Number(image[at..at + 8])
  {
    Read32(image, at);
    Read32(image, at + 4);
    NumberSplit(image[at..at + 4], image[at + 4..at + 8]);
    assert Pow256(2) == 0x1_0000 && Pow256(4) == 0x1_0000_0000;
    assert image[at..at + 4] + image[at + 4..at + 8] == image[at..at + 8];
  }

  // ---------------------------------------------------------------------------------------
  // Program headers
  // ---------------------------------------------------------------------------------------

  /** `Elf64_Phdr` */
  datatype ProgramHeader = ProgramHeader(kind: nat, flags: nat, offset: U64, vaddr: U64, paddr: U64, filesz: U64, memsz: U64, align: U64)

  /** The 56 bytes at `at` are this program header: each field stands where the layout has it. */
  predicate HeaderAt(image: seq<bv8>, at: nat, h: ProgramHeader) {
    && at + 56 <= |image|
    && Number(image[at..at + 4]) == h.kind && Number(image[at + 4..at + 8]) == h.flags
    && Number(image[at + 8..at + 16]) == h.offset && Number(image[at + 16..at + 24]) == h.vaddr
    && Number(image[at + 24..at + 32]) == h.paddr && Number(image[at + 32..at + 40]) == h.filesz
    && Number(image[at + 40..at + 48]) == h.memsz && Number(image[at + 48..at + 56]) == h.align
  }

  /** A program header reads as what its fields stand for: bit 0 of its flags is to execute, bit 1 to write. */
  lemma PhdrReads(image: seq<bv8>, at: nat, h: ProgramHeader)
    requires HeaderAt(image, at, h)
    ensures ReadPhdr(image, at) == Phdr(h.kind, h.flags / 2 % 2 == 1, h.flags % 2 == 1, h.offset, h.vaddr, h.filesz, h.memsz)
  {
    Read32(image, at);
    Read32(image, at + 4);
    Read64(image, at + 8);
    Read64(image, at + 16);
    Read64(image, at + 32);
    Read64(image, at + 40);
  }

  /** The permissions of a program header are two bits of one byte of the file. */
  lemma FlagBits(image: seq<bv8>, at: nat)
    requires at + PHDR_SIZE <= |image|
    ensures ReadPhdr(image, at).write <==> image[at + 4] as nat / 2 % 2 == 1
    ensures ReadPhdr(image, at).exec <==> image[at + 4] as nat % 2 == 1
  {
    var low, mid, high := image[at + 4] as nat, image[at + 5] as nat, Le16(image, at + 6);
    assert Le32(image, at + 4) == low + 0x100 * mid + 0x1_0000 * high;
    LowBits(low, mid, high, Le32(image, at + 4));
  }

  lemma LowBits(low: nat, mid: nat, high: nat, v: nat)
    requires v == low + 0x100 * mid + 0x1_0000 * high
    ensures v % 2 == low % 2 && v / 2 % 2 == low / 2 % 2
  {
    var rest := 0x80 * mid + 0x8000 * high;
    assert v == low + 2 * rest && v / 2 == low / 2 + rest && rest % 2 == 0;
  }

  // ---------------------------------------------------------------------------------------
  // The file header
  // ---------------------------------------------------------------------------------------

  /** The fields of `Elf64_Ehdr` that the loader looks at, where the layout has them. */
  lemma EhdrReads(image: seq<bv8>)
    requires EHDR_SIZE <= |image|
    ensures var eh := ReadEhdr(image);
            && eh.kind == Number(image[16..18]) && eh.machine == Number(image[18..20])
            && eh.entry == Number(image[24..32]) && eh.phoff == Number(image[32..40])
            && eh.phentsize == Number(image[54..56]) && eh.phnum == Number(image[56..58])
  {
    Read16(image, 16);
    Read16(image, 18);
    Read64(image, 24);
    Read64(image, 32);
    Read16(image, 54);
    Read16(image, 56);
  }

  lemma Magic(image: seq<bv8>)
    requires |image| >= 16
    ensures image[..16][..6] == [0x7F, 0x45, 0x4C, 0x46, 2, 1] <==>
            image[0] == 0x7F && image[1] == 0x45 && image[2] == 0x4C && image[3] == 0x46 && image[4] == 2 && image[5] == 1
  {
    var magic: seq<bv8> := [0x7F, 0x45, 0x4C, 0x46, 2, 1];
    var b := image[..16][..6];
    assert b == magic <==> b[0] == magic[0] && b[1] == magic[1] && b[2] == magic[2] && b[3] == magic[3] && b[4] == magic[4] && b[5] == magic[5];
  }

  /** A file is accepted exactly if it has room for the header, begins with the magic number of a 64-bit
      little-endian ELF file, is an executable or a shared object for x86-64, has program headers of 56
      bytes, and their end, in 64 bits, is in the file. */
  lemma AcceptedMeans(image: seq<bv8>)
    ensures Accepted(image) <==>
            && |image| >= 64
            && image[0] == 0x7F && image[1] == 0x45 && image[2] == 0x4C && image[3] == 0x46 && image[4] == 2 && image[5] == 1
            && (Number(image[16..18]) == 2 || Number(image[16..18]) == 3) && Number(image[18..20]) == 62
            && Number(image[54..56]) == 56
            && (Number(image[32..40]) + 56 * Number(image[56..58])) % 0x1_0000_0000_0000_0000 <= |image|
  {
    if |image| >= 64 {
      EhdrReads(image);
      Magic(image);
    }
  }

  /** Where an image is loaded and entered: a shared object 512 GiB and 16 MiB up, an executable where it
      says. */
  lemma EntryIs(image: seq<bv8>)
    requires EHDR_SIZE <= |image|
    ensures var eh := ReadEhdr(image);
            && LoadBias(eh) == (if Number(image[16..18]) == 3 then 0x80_0100_0000 else 0)
            && Add64(eh.entry, LoadBias(eh)) == (Number(image[24..32]) + LoadBias(eh)) % 0x1_0000_0000_0000_0000
  {
    EhdrReads(image);
  }
}
