/** The write callback of src/vfs/GenericCopyContext.cpp. */
module Extract {
  import opened Paths
  import opened Bytes
  import opened FatFs

  datatype Status = Good | Full | WriteError

  /** Only the node at p may differ, and there only bytes have been appended. */
  ghost predicate Appended(before: Tree, after: Tree, p: Path) {
    && p in before && before[p].File?
    && after.Keys == before.Keys
    && (forall q :: q in before && q != p ==> after[q] == before[q])
    && after[p].File? && before[p].data <= after[p].data
  }

  lemma AppendedChain(a: Tree, b: Tree, c: Tree, p: Path)
    requires Appended(a, b, p) && Appended(b, c, p)
    ensures Appended(a, c, p)
  {
  }

  lemma AppendedSelf(t: Tree, p: Path)
    requires p in t && t[p].File?
    ensures Appended(t, t, p)
  {
  }

  lemma AppendedElsewhere(a: Tree, b: Tree, p: Path, q: Path)
    requires Appended(a, b, p) && q in a && q != p
    ensures q in b && b[q] == a[q] && p in b && b[p].File?
  {
  }

  class ExtractContext {
    const fatfs: Volume
    const file: FileHandle
    var status: Status

    constructor (file: FileHandle, fatfs: Volume)
      ensures this.fatfs == fatfs && this.file == file && status == Good
    {
      this.fatfs := fatfs;
      this.file := file;
      status := Good;
    }

    /** The card counts as full exactly if fewer bytes were written than asked for, whatever the reason. */
    method OnExtract(data: seq<byte>)
      requires fatfs.Valid() && file.path in fatfs.tree && fatfs.tree[file.path].File?
      modifies this`status, fatfs`tree
      ensures fatfs.Valid() && Appended(old(fatfs.tree), fatfs.tree, file.path)
      ensures status == Good ==>
        && old(status) == Good
        && fatfs.tree[file.path].data == old(fatfs.tree[file.path].data) + data
      ensures old(status) == Good ==>
        (status == Full <==> fatfs.tree[file.path].data != old(fatfs.tree[file.path].data) + data)
      ensures old(status) != Good ==> status == old(status) && fatfs.tree == old(fatfs.tree)
      ensures fatfs.reliable && old(status) == Good ==> status == Good
    {
      hide TreeValid;
      if status != Good { return; }
      var r, bytesWritten := fatfs.Write(file, data);
      if r != Ok { status := WriteError; }
      if bytesWritten != |data| { status := Full; }
      assert bytesWritten == |data| ==> data[..bytesWritten] == data;
      assert |fatfs.tree[file.path].data| == |old(fatfs.tree[file.path].data)| + bytesWritten;
    }
  }
}
