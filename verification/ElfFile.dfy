/** ELF files: the headers of src/elf.c as the bytes of the file give them. */
module ElfFile {
  import opened Align

  const EHDR_SIZE: nat := 64
  const PHDR_SIZE: nat := 56
  const PT_LOAD: nat := 1
  const ET_EXEC: nat := 2
  const ET_DYN: nat := 3
  const EM_X86_64: nat := 62
  const USER_REGION_BASE: U64 := 0x80_0000_0000

  datatype Ehdr = Ehdr(ident: seq<bv8>, kind: nat, machine: nat, entry: U64, phoff: U64, phentsize: nat, phnum: nat)

  datatype Phdr = Phdr(kind: nat, write: bool, exec: bool, offset: U64, vaddr: U64, filesz: U64, memsz: U64)

  /** Little-endian numbers in the file. */
  function Le16(image: seq<bv8>, at: nat): (v: nat)
    requires at + 2 <= |image|
    ensures v < 0x1_0000
  {
    image[at] as nat + 0x100 * image[at + 1] as nat
  }

  function Le32(image: seq<bv8>, at: nat): (v: nat)
    requires at + 4 <= |image|
    ensures v < 0x1_0000_0000
  {
    Le16(image, at) + 0x1_0000 * Le16(image, at + 2)
  }

  function Le64(image: seq<bv8>, at: nat): U64
    requires at + 8 <= |image|
  {
    Le32(image, at) + 0x1_0000_0000 * Le32(image, at + 4)
  }

  function ReadEhdr(image: seq<bv8>): Ehdr
    requires |image| >= EHDR_SIZE
  {
    Ehdr(image[..16], Le16(image, 16), Le16(image, 18), Le64(image, 24), Le64(image, 32), Le16(image, 54), Le16(image, 56))
  }

  function ReadPhdr(image: seq<bv8>, at: nat): Phdr
    requires at + PHDR_SIZE <= |image|
  {
    var flags := Le32(image, at + 4);
    Phdr(Le32(image, at), flags / 2 % 2 == 1, flags % 2 == 1, Le64(image, at + 8),
         Le64(image, at + 16), Le64(image, at + 32), Le64(image, at + 40))
  }

  /** `elf_validate`; the sum of the table's offset and size wraps at 64 bits. */
  predicate Validate(eh: Ehdr, size: nat) {
    && size >= EHDR_SIZE
    && |eh.ident| >= 6 && eh.ident[..6] == [0x7F, 0x45, 0x4C, 0x46, 2, 1]
    && (eh.kind == ET_EXEC || eh.kind == ET_DYN)
    && eh.machine == EM_X86_64
    && eh.phentsize == PHDR_SIZE
    && (eh.phoff + eh.phnum * PHDR_SIZE) % TWO64 <= size
  }

  /** A valid header's program headers lie inside the file exactly when their end does not wrap. */
  lemma HeadersInFile(eh: Ehdr, size: nat)
    requires Validate(eh, size) && eh.phnum < 0x1_0000 && size < TWO64
    ensures eh.phoff + eh.phnum * PHDR_SIZE <= size <==> eh.phoff + eh.phnum * PHDR_SIZE < TWO64
  {
  }

  /** A header whose table begins 56 bytes below the top of the address space passes for a file of 64
      bytes, in which its one program header does not lie. */
  lemma WrappedHeaders()
    ensures var eh := Ehdr([0x7F, 0x45, 0x4C, 0x46, 2, 1], ET_EXEC, EM_X86_64, 0, TWO64 - 56, PHDR_SIZE, 1);
            Validate(eh, 64) && eh.phoff + eh.phnum * PHDR_SIZE > 64
  {
    var ident: seq<bv8> := [0x7F, 0x45, 0x4C, 0x46, 2, 1];
    assert ident[..6] == ident;
  }

  /** The test that the loader makes of a segment's place in the file; the sum wraps at 64 bits. */
  predicate Passes(p: Phdr, size: nat) {
    Add64(p.offset, p.filesz) <= size
  }

  /** The bytes of a segment that passes lie inside the file exactly when their end does not wrap. */
  lemma SegmentInFile(p: Phdr, size: nat)
    requires Passes(p, size) && size < TWO64
    ensures p.offset + p.filesz <= size <==> p.offset + p.filesz < TWO64
  {
  }

  /** A segment of one byte at the last offset of the address space passes for every file. */
  lemma WrappedSegment(size: nat)
    ensures var p := Phdr(PT_LOAD, true, true, TWO64 - 1, USER_REGION_BASE, 1, 1);
            Passes(p, size) && (size < TWO64 ==> p.offset + p.filesz > size)
  {
  }

  function LoadBias(eh: Ehdr): U64 {
    if eh.kind == ET_DYN then AlignUp(USER_REGION_BASE + 0x100_0000) else 0
  }

  /** The file is one whose headers the loader accepts; they lie inside it unless their end wraps. */
  predicate Accepted(image: seq<bv8>) {
    |image| >= EHDR_SIZE && Validate(ReadEhdr(image), |image|)
  }

  /** The end of the program headers wraps: they are not in the file, and what the loader then reads is
      not determined by it. */
  predicate HeadersWrap(image: seq<bv8>)
    requires Accepted(image)
  {
    ReadEhdr(image).phoff + ReadEhdr(image).phnum * PHDR_SIZE >= TWO64
  }

  function Headers(image: seq<bv8>): seq<Phdr>
    requires |image| < TWO64 && Accepted(image) && !HeadersWrap(image)
  {
    var eh := ReadEhdr(image);
    HeadersInFile(eh, |image|);
    seq(eh.phnum, i requires 0 <= i < eh.phnum => ReadPhdr(image, eh.phoff + i * PHDR_SIZE))
  }

  /** No loadable segment's file range wraps. */
  predicate Plain(ph: seq<Phdr>) {
    forall i :: 0 <= i < |ph| && ph[i].kind == PT_LOAD ==> ph[i].offset + ph[i].filesz < TWO64
  }

  /** No sum of a file offset and a size wraps: neither the program headers' nor a segment's. */
  predicate NoWrap(image: seq<bv8>) {
    |image| < TWO64 && (Accepted(image) ==> !HeadersWrap(image) && Plain(Headers(image)))
  }
}
