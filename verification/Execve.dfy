/** `SYS_execve` of src/syscall.c between the reading of the file and the hand-over, as it runs. */
module Execve {
  import opened Basics
  import opened Vmm
  import opened ElfFile
  import Elf
  import UserStack
  import X = Exec

  method Prepare(m: Memory, image: seq<bv8>) returns (r: Option<X.NewImage>)
    requires m.Shaped() && NoWrap(image)
    modifies m.pmm`freeCount, m.pmm.bitmap, m.mem, m.table
    ensures m.Shaped() && (m.Spaces(), r) == X.Prepare(old(m.Spaces()), m.kernelRoot, image)
  {
    var root := m.CreateUserSpace();
    if root == 0 { return None; }
    var loaded := Elf.LoadImage(m, root, image);
    if loaded.None? {
      m.ReleaseUserSpace(root);
      return None;
    }
    var ok := UserStack.GiveStack(m, root);
    if !ok {
      m.ReleaseUserSpace(root);
      return None;
    }
    return Some(X.NewImage(root, loaded.value.0, loaded.value.1));
  }
}
