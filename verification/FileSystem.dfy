/** The read-only file system of file_system.c: block-wise file reads and directory lookup. */
module FileSystem {
  import opened Bytes
  import Strings

  const BLOCK := 4096
  const INODE_BLOCKS := 1023
  const FILE_NAME_SIZE := 32
  const MAX_DIR_ENTRIES := 63

  /** name holds the 32 name bytes; they need not end in a NUL. */
  datatype DirEntry = DirEntry(name: seq<Byte>, fileType: int, inode: nat)

  datatype Inode = Inode(length: nat, blocks: seq<nat>)

  datatype Image = Image(entries: seq<DirEntry>, inodes: seq<Inode>, data: seq<seq<Byte>>) {
    /** Sizes are as on disk, and every block a file needs exists. Index slots past the end of a file
        may hold anything. */
    ghost predicate Valid() {
      && |entries| <= MAX_DIR_ENTRIES && (forall i :: 0 <= i < |entries| ==> |entries[i].name| == FILE_NAME_SIZE)
      && (forall b :: 0 <= b < |data| ==> |data[b]| == BLOCK)
      && forall i :: 0 <= i < |inodes| ==> ValidInode(inodes[i])
    }

    ghost predicate ValidInode(node: Inode) {
      && |node.blocks| == INODE_BLOCKS && node.length <= INODE_BLOCKS * BLOCK
      && forall k :: 0 <= k < INODE_BLOCKS && k * BLOCK < node.length ==> node.blocks[k] < |data|
    }

    /** Byte j of a file. */
    function FileByte(ino: nat, j: nat): Byte
      requires Valid() && ino < |inodes| && j < inodes[ino].length
    {
      data[inodes[ino].blocks[j / BLOCK]][j % BLOCK]
    }

    /** The file as one flat sequence. */
    function File(ino: nat): (f: seq<Byte>)
      requires Valid() && ino < |inodes|
      ensures |f| == inodes[ino].length
    {
      seq(inodes[ino].length, j requires 0 <= j < inodes[ino].length => FileByte(ino, j))
    }

    /** The name of entry i: its bytes up to a NUL or all 32. */
    function Name(i: nat): (s: seq<Byte>)
      requires i < |entries|
    {
      CStr(entries[i].name)
    }
  }

  /** How many bytes a read of `length` at `offset` yields from a file of `size` bytes. */
  function Readable(size: nat, offset: nat, length: nat): nat {
    Min(length, Max(0, size - offset))
  }

  /** Block k of a file holds one of its bytes offset .. offset + n - 1. */
  ghost predicate Holds(k: nat, offset: nat, n: nat) {
    offset / BLOCK <= k && k * BLOCK < offset + n
  }

  ghost function BlocksOf(offset: nat, n: nat): set<nat> {
    if n == 0 then {} else set k: nat | k < offset + n && Holds(k, offset, n)
  }

  /** was with its first r bytes replaced by the bytes of the file from offset on. */
  function Filled(was: seq<Byte>, img: Image, ino: nat, offset: nat, r: nat): seq<Byte>
    requires img.Valid() && ino < |img.inodes| && r <= |was| && (r > 0 ==> offset + r <= img.inodes[ino].length)
  {
    seq(|was|, i requires 0 <= i < |was| => FilledByte(was, img, ino, offset, r, i))
  }

  function FilledByte(was: seq<Byte>, img: Image, ino: nat, offset: nat, r: nat, i: nat): Byte
    requires img.Valid() && ino < |img.inodes| && (r > 0 ==> offset + r <= img.inodes[ino].length) && i < |was|
  {
    if i < r then img.FileByte(ino, offset + i) else was[i]
  }

  /** read_data: walks the block list with a running pointer. The bytes delivered are exactly the slice
      of the flat file, the rest of the buffer is untouched, and only the blocks of the file that hold
      part of the slice are read. */
  method ReadData(img: Image, inode: nat, offset: nat, buf: array<Byte>, length: nat)
    returns (r: int, ghost touched: set<nat>)
    requires img.Valid() && length < UINT32
    requires inode < |img.inodes| ==> Readable(img.inodes[inode].length, offset, length) <= buf.Length
    modifies buf
    ensures inode >= |img.inodes| ==> r == ERROR && buf[..] == old(buf[..]) && touched == {}
    ensures inode < |img.inodes| ==>
              && r == Readable(img.inodes[inode].length, offset, length)
              && buf[..] == Filled(old(buf[..]), img, inode, offset, r)
              && touched == BlocksOf(offset, r)
  {
    touched := {};
    if inode >= |img.inodes| {
      return ERROR, touched;
    }
    var node := img.inodes[inode];
    var seek, idx, within := offset, offset / BLOCK, offset % BLOCK;
    // The running data pointer. Past the last slot of the inode it is junk, and never followed.
    var block, at := if idx < INODE_BLOCKS then node.blocks[idx] else 0, within;
    var n := 0;
    while n < length && seek < node.length
      invariant 0 <= n <= length && seek == offset + n && (n > 0 ==> seek <= node.length)
      invariant 0 <= idx && 0 <= within <= BLOCK && idx * BLOCK + within == seek && (n > 0 ==> within > 0)
      invariant (idx < INODE_BLOCKS ==> block == node.blocks[idx]) && at == within
      invariant buf[..] == Filled(old(buf[..]), img, inode, offset, n)
      invariant touched == BlocksOf(offset, n)
    {
      if within == BLOCK {
        within := 0;
        idx := idx + 1;
        block, at := node.blocks[idx], 0;
      }
      ByteAt(img, inode, idx, at);
      BlocksMore(offset, n, idx, at);
      buf[n] := img.data[block][at];
      touched := touched + {idx};
      at := at + 1;
      seek := seek + 1;
      within := within + 1;
      n := n + 1;
    }
    r := n;
  }

  /** Byte `at` of the block in slot idx is byte idx * 4096 + at of the file. */
  lemma ByteAt(img: Image, ino: nat, idx: nat, at: nat)
    requires img.Valid() && ino < |img.inodes| && at < BLOCK && idx * BLOCK + at < img.inodes[ino].length
    ensures idx < INODE_BLOCKS && img.inodes[ino].blocks[idx] < |img.data|
    ensures |img.data[img.inodes[ino].blocks[idx]]| == BLOCK
    ensures img.data[img.inodes[ino].blocks[idx]][at] == img.FileByte(ino, idx * BLOCK + at)
  {
    assert img.ValidInode(img.inodes[ino]);
  }

  lemma BlocksMore(offset: nat, n: nat, idx: nat, at: nat)
    requires idx * BLOCK + at == offset + n && at < BLOCK
    ensures BlocksOf(offset, n) + {idx} == BlocksOf(offset, n + 1)
  {
    assert offset / BLOCK <= idx;
    forall k: nat
      ensures Holds(k, offset, n + 1) <==> k == idx || (n > 0 && Holds(k, offset, n))
    {
      if k < idx {
        assert k * BLOCK + BLOCK <= idx * BLOCK;
      } else if k > idx {
        assert k * BLOCK >= idx * BLOCK + BLOCK;
      }
    }
  }

  /** In terms of the flat file. */
  lemma FilledIsSlice(was: seq<Byte>, img: Image, ino: nat, offset: nat, r: nat)
    requires img.Valid() && ino < |img.inodes| && r <= |was| && (r > 0 ==> offset + r <= img.inodes[ino].length)
    ensures r > 0 ==> Filled(was, img, ino, offset, r)[..r] == img.File(ino)[offset..offset + r]
    ensures Filled(was, img, ino, offset, r)[r..] == was[r..]
  {
  }

  /** The first n blocks of a file, one after the other. */
  function Joined(img: Image, ino: nat, n: nat): seq<Byte>
    requires ino < |img.inodes| && n <= |img.inodes[ino].blocks|
    requires forall k :: 0 <= k < n ==> img.inodes[ino].blocks[k] < |img.data|
  {
    if n == 0 then [] else Joined(img, ino, n - 1) + img.data[img.inodes[ino].blocks[n - 1]]
  }

  lemma {:induction false} JoinedAt(img: Image, ino: nat, n: nat, j: nat)
    requires img.Valid() && ino < |img.inodes| && n <= INODE_BLOCKS && |img.inodes[ino].blocks| == INODE_BLOCKS
    requires forall k :: 0 <= k < n ==> img.inodes[ino].blocks[k] < |img.data|
    ensures |Joined(img, ino, n)| == 4096 * n
    ensures j < 4096 * n ==> Joined(img, ino, n)[j] == img.data[img.inodes[ino].blocks[j / 4096]][j % 4096]
  {
    if n > 0 {
      JoinedAt(img, ino, n - 1, j);
      if 4096 * (n - 1) <= j < 4096 * n { assert j / 4096 == n - 1 && j - 4096 * (n - 1) == j % 4096; }
    }
  }

  /** The flat file is its 4096-byte blocks joined in the order of the inode, cut to its length. */
  lemma FileIsJoined(img: Image, ino: nat, n: nat)
    requires img.Valid() && ino < |img.inodes| && n <= INODE_BLOCKS
    requires 4096 * (n - 1) < img.inodes[ino].length <= 4096 * n || (n == 0 == img.inodes[ino].length)
    ensures img.ValidInode(img.inodes[ino])
    ensures img.inodes[ino].length <= |Joined(img, ino, n)|
    ensures img.File(ino) == Joined(img, ino, n)[..img.inodes[ino].length]
  {
    assert img.ValidInode(img.inodes[ino]);
    JoinedAt(img, ino, n, 0);
    forall j | 0 <= j < img.inodes[ino].length ensures img.File(ino)[j] == Joined(img, ino, n)[j] {
      JoinedAt(img, ino, n, j);
    }
  }

  /** The blocks read are exactly those with a byte of the slice. */
  lemma BlocksHoldSlice(offset: nat, n: nat, k: nat)
    ensures k in BlocksOf(offset, n) <==> exists j :: offset <= j < offset + n && BlockOf(j) == k
  {
    if k in BlocksOf(offset, n) {
      var j := Max(offset, 4096 * k);
      assert BlockOf(j) == k;
    }
  }

  function BlockOf(j: nat): nat {
    j / 4096
  }

  /** How much a read yields: all that is asked for while the file lasts, then the rest, then nothing. */
  lemma ReadableCases(size: nat, offset: nat, length: nat)
    ensures offset + length <= size ==> Readable(size, offset, length) == length
    ensures offset <= size < offset + length ==> Readable(size, offset, length) == size - offset
    ensures size < offset ==> Readable(size, offset, length) == 0
  {
  }

  // ---- Directory ----

  /** read_dentry_by_name: the first entry whose name equals fname, if there is one. */
  method ReadDentryByName(img: Image, fname: seq<Byte>) returns (r: Option<nat>)
    requires img.Valid() && NUL in fname
    ensures r.Some? ==> r.value < |img.entries| && img.Name(r.value) == CStr(fname)
    ensures r.Some? ==> forall j :: 0 <= j < r.value ==> img.Name(j) != CStr(fname)
    ensures r.None? ==> forall j :: 0 <= j < |img.entries| ==> img.Name(j) != CStr(fname)
  {
    var len := Strings.Strlen(fname);
    if len > FILE_NAME_SIZE {
      return None;
    }
    var i := 0;
    while i < |img.entries|
      invariant 0 <= i <= |img.entries|
      invariant forall j :: 0 <= j < i ==> img.Name(j) != CStr(fname)
    {
      NameCompare(fname, img.entries[i].name);
      var cmp := Strings.Strncmp(fname, img.entries[i].name, FILE_NAME_SIZE);
      if cmp == 0 {
        return Some(i);
      }
      i := i + 1;
    }
    return None;
  }

  /** Comparing 32 bytes decides equality for arguments of at most 32 characters. */
  lemma NameCompare(fname: seq<Byte>, name: seq<Byte>)
    requires NUL in fname && |CStr(fname)| <= FILE_NAME_SIZE && |name| == FILE_NAME_SIZE
    ensures CStr(fname[..Min(FILE_NAME_SIZE, |fname|)]) == CStr(fname)
    ensures name[..Min(FILE_NAME_SIZE, |name|)] == name
  {
    Strings.CStrEnds(fname);
    var cut := fname[..Min(FILE_NAME_SIZE, |fname|)];
    var n := |CStr(fname)|;
    assert cut[..n] == fname[..n];
    CStrUnique(cut, n);
  }

  /** The pure result of the lookup. */
  function Lookup(img: Image, name: seq<Byte>): (r: Option<nat>)
    ensures r.Some? ==> r.value < |img.entries| && img.Name(r.value) == name
  {
    LookupFrom(img, name, 0)
  }

  function LookupFrom(img: Image, name: seq<Byte>, i: nat): (r: Option<nat>)
    requires i <= |img.entries|
    ensures r.Some? ==> i <= r.value < |img.entries| && img.Name(r.value) == name
    decreases |img.entries| - i
  {
    if i == |img.entries| then None else if img.Name(i) == name then Some(i) else LookupFrom(img, name, i + 1)
  }

  /** Entry i is the first of that name. */
  ghost predicate FirstNamed(img: Image, name: seq<Byte>, i: int) {
    0 <= i < |img.entries| && img.Name(i) == name && forall j :: 0 <= j < i ==> img.Name(j) != name
  }

  lemma FirstIsLookup(img: Image, name: seq<Byte>, i: int)
    requires FirstNamed(img, name, i)
    ensures Lookup(img, name) == Some(i)
  {
    LookupIsFirst(img, name, 0);
  }

  /** It is the first entry of that name, and there is none exactly if no entry has it. */
  lemma {:induction false} LookupIsFirst(img: Image, name: seq<Byte>, i: nat)
    requires i <= |img.entries|
    ensures var r := LookupFrom(img, name, i);
            forall j :: i <= j < (if r.Some? then r.value else |img.entries|) ==> img.Name(j) != name
    decreases |img.entries| - i
  {
    if i < |img.entries| && img.Name(i) != name { LookupIsFirst(img, name, i + 1); }
  }

  /** The search agrees with the reference lookup. */
  method FindEntry(img: Image, fname: seq<Byte>) returns (r: Option<nat>)
    requires img.Valid() && NUL in fname
    ensures r == Lookup(img, CStr(fname))
  {
    r := ReadDentryByName(img, fname);
    LookupIsFirst(img, CStr(fname), 0);
  }

  /** dir_read at position pos: the name, padded to 32 bytes, its length, and the next position. */
  method DirRead(img: Image, pos: nat, buf: array<Byte>) returns (r: int, pos': nat)
    requires img.Valid() && buf.Length >= FILE_NAME_SIZE
    modifies buf
    ensures pos >= |img.entries| ==> r == 0 && pos' == pos && buf[..] == old(buf[..])
    ensures pos < |img.entries| ==>
              && r == |img.Name(pos)| && pos' == pos + 1 && buf[..r] == img.Name(pos)
              && buf[..] == Strings.Padded(old(buf[..]), 0, img.Name(pos), FILE_NAME_SIZE)
    ensures (forall i :: 0 <= i < |img.entries| ==> img.Name(i) != []) ==> (r == 0 <==> pos >= |img.entries|)
  {
    if pos >= |img.entries| {
      return 0, pos;
    }
    var name := img.entries[pos].name;
    // strncpy may look at the byte after the name, the low byte of the file type
    var src: seq<Byte> := name + [img.entries[pos].fileType % 256];
    NameAsSource(name, src);
    Strings.Strncpy(buf, 0, src, FILE_NAME_SIZE);
    assert buf[..|CStr(name)|] == CStr(name);
    r := NameLength(name, src);
    pos' := pos + 1;
  }

  /** The length of the name, by way of a NUL-terminated copy. */
  method NameLength(name: seq<Byte>, src: seq<Byte>) returns (r: nat)
    requires |name| == FILE_NAME_SIZE && |src| == FILE_NAME_SIZE + 1 && src[..FILE_NAME_SIZE] == name
    ensures r == |CStr(name)|
  {
    var tmp := new Byte[FILE_NAME_SIZE + 1](_ => NUL);
    NameAsSource(name, src);
    Strings.Strncpy(tmp, 0, src, FILE_NAME_SIZE);
    tmp[FILE_NAME_SIZE] := NUL;
    ghost var n := |CStr(name)|;
    assert tmp[..][..n] == CStr(name);
    assert tmp[n] == NUL;
    CStrUnique(tmp[..], n);
    r := Strings.Strlen(tmp[..]);
  }

  /** Cut to 32 bytes, the source reads as the name whether or not a NUL ends it. */
  lemma NameAsSource(name: seq<Byte>, src: seq<Byte>)
    requires |name| == FILE_NAME_SIZE && |src| == FILE_NAME_SIZE + 1 && src[..FILE_NAME_SIZE] == name
    ensures CStr(src)[..Min(|CStr(src)|, FILE_NAME_SIZE)] == CStr(name)
    ensures |CStr(name)| < FILE_NAME_SIZE ==> CStr(src) == CStr(name)
  {
    var n := |CStr(name)|;
    assert src[..n] == name[..n];
    if n < FILE_NAME_SIZE {
      assert src[n] == name[n];
      CStrUnique(src, n);
    } else if src[FILE_NAME_SIZE] == NUL {
      CStrUnique(src, FILE_NAME_SIZE);
    } else {
      assert src[..FILE_NAME_SIZE + 1] == name + [src[FILE_NAME_SIZE]];
      CStrUnique(src, FILE_NAME_SIZE + 1);
    }
  }
}
