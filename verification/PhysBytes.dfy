/** Physical memory byte by byte: `memcpy` to a physical address, wherever it ends. */
module PhysBytes {
  import opened Align
  import opened Paging

  // ---------------------------------------------------------------------------------------
  // Table entries as bytes
  // ---------------------------------------------------------------------------------------

  /** Bits as a number, lowest first. */
  function Pack(bs: seq<bool>): nat {
    if bs == [] then 0 else (if bs[0] then 1 else 0) + 2 * Pack(bs[1..])
  }

  function Unpack(x: nat, n: nat): (bs: seq<bool>)
    ensures |bs| == n
  {
    if n == 0 then [] else [x % 2 == 1] + Unpack(x / 2, n - 1)
  }

  lemma {:induction false} UnpackPack(bs: seq<bool>)
    ensures Unpack(Pack(bs), |bs|) == bs
  {
    if bs != [] {
      UnpackPack(bs[1..]);
      assert Pack(bs) / 2 == Pack(bs[1..]) && (Pack(bs) % 2 == 1) == bs[0];
    }
  }

  function LowFlags(g: Flags): seq<bool> {
    [g.present, g.writable, g.user, g.writeThrough, g.cacheDisable, g.accessed, g.dirty, g.huge]
  }

  /** The eight bytes of an entry, lowest first: nine flag bits, the frame number from bit 12 on, and
      the no-execute bit at the top. */
  function EntryBytes(e: Entry): (b: seq<nat>)
    ensures |b| == 8
  {
    var f, g := e.frame, e.flags;
    [Pack(LowFlags(g)), Pack([g.global]) + f % 16 * 16,
     f / 0x10 % 256, f / 0x1000 % 256, f / 0x10_0000 % 256, f / 0x1000_0000 % 256, f / 0x10_0000_0000 % 16,
     128 * Pack([g.noExec])]
  }

  function EntryOf(b: seq<nat>): Entry
    requires |b| == 8
  {
    var g := Unpack(b[0], 8);
    Entry(b[1] / 16 % 16 + b[2] * 0x10 + b[3] * 0x1000 + b[4] * 0x10_0000 + b[5] * 0x1000_0000 + b[6] % 16 * 0x10_0000_0000,
          Flags(g[0], g[1], g[2], g[3], g[4], g[5], g[6], g[7], b[1] % 2 == 1, b[7] >= 128))
  }

  lemma FrameDigits(f: nat)
    requires f < 0x100_0000_0000
    ensures f == f % 16 + f / 0x10 % 256 * 0x10 + f / 0x1000 % 256 * 0x1000 + f / 0x10_0000 % 256 * 0x10_0000
                 + f / 0x1000_0000 % 256 * 0x1000_0000 + f / 0x10_0000_0000 % 16 * 0x10_0000_0000
  {
    var a := f / 0x10;
    var b := a / 256;
    var c := b / 256;
    var d := c / 256;
    assert b == f / 0x1000 && c == f / 0x10_0000 && d == f / 0x1000_0000 && d / 256 == f / 0x10_0000_0000;
  }

  lemma PackOne(b: bool)
    ensures Pack([b]) == if b then 1 else 0
  {
    assert [b][1..] == [];
  }

  /** An entry whose frame has a 40-bit number is what its bytes say. */
  lemma EntryRoundTrip(e: Entry)
    requires e.frame < 0x100_0000_0000
    ensures EntryOf(EntryBytes(e)) == e
  {
    var f, g, b := e.frame, e.flags, EntryBytes(e);
    UnpackPack(LowFlags(g));
    PackOne(g.global);
    PackOne(g.noExec);
    FrameDigits(f);
    Nibbles(Pack([g.global]), f % 16, f / 0x10_0000_0000 % 16);
  }

  lemma Nibbles(g: nat, x: nat, y: nat)
    requires g < 2 && x < 16 && y < 16
    ensures (g + x * 16) / 16 % 16 == x && (g + x * 16) % 2 == g && y % 16 == y
  {
  }

  // ---------------------------------------------------------------------------------------
  // Copying
  // ---------------------------------------------------------------------------------------

  /** The byte that a copy of `src` to physical address `target` leaves at address `a`. */
  function ByteAfter(a: nat, was: nat, target: nat, src: seq<bv8>): nat {
    if target <= a < target + |src| then src[a - target] as nat else was
  }

  /** An entry at physical address `a`, some of whose bytes may have been written over. */
  function EntryAfter(e: Entry, a: nat, target: nat, src: seq<bv8>): Entry {
    if a + 8 <= target || target + |src| <= a then e
    else EntryOf(seq(8, j requires 0 <= j < 8 => ByteAfter(a + j, EntryBytes(e)[j], target, src)))
  }

  function DataAfter(bytes: Bytes, a: nat, target: nat, src: seq<bv8>): (r: Bytes)
    ensures forall j :: 0 <= j < 4096 ==> r[j] == if target <= a + j < target + |src| then src[a + j - target] else bytes[j]
  {
    seq(4096, j requires 0 <= j < 4096 => if target <= a + j < target + |src| then src[a + j - target] else bytes[j])
  }

  function TableAfter(es: EntryTable, a: nat, target: nat, src: seq<bv8>): (r: EntryTable) {
    seq(512, i requires 0 <= i < 512 => EntryAfter(es[i], a + 8 * i, target, src))
  }

  /** The frame at physical address `a` after the copy. */
  function FrameAfter(f: Frame, a: nat, target: nat, src: seq<bv8>): Frame {
    match f
    case Data(bytes) => Data(DataAfter(bytes, a, target, src))
    case Table(es) => Table(TableAfter(es, a, target, src))
  }

  predicate Reached(f: nat, target: nat, src: seq<bv8>) {
    src != [] && target < (f + 1) * PAGE_SIZE && f * PAGE_SIZE < target + |src|
  }

  /** `memcpy` to physical address `target`. */
  function CopyBytes(mem: seq<Frame>, target: nat, src: seq<bv8>): (r: seq<Frame>)
    ensures |r| == |mem|
    ensures forall f :: 0 <= f < |mem| ==> r[f] == if Reached(f, target, src) then FrameAfter(mem[f], f * PAGE_SIZE, target, src) else mem[f]
  {
    seq(|mem|, f requires 0 <= f < |mem| => if Reached(f, target, src) then FrameAfter(mem[f], f * PAGE_SIZE, target, src) else mem[f])
  }
}
