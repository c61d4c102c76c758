/** The reader: opening an image, and reading inodes, directories, files and the whole tree.
    The functions say what each operation returns on any image; the methods of the next
    module compute them. */
module Reader {
  import opened Bytes
  import opened Metadata
  import opened Inodes
  import opened Directory
  import opened DataBlocks
  import opened Fragments
  import opened Lookup
  import opened SuperblockFormat

  datatype Image = Image(data: Bytes, sb: Superblock, ids: seq<nat>, fragments: seq<FragmentEntry>)

  /** A callback invocation of `walk`. */
  datatype Visit = Visit(path: Bytes, inode: Inode)

  const ID_SIZE: nat := 4
  const FRAGMENT_ENTRY_SIZE: nat := 16

  function ReadIdTable(z: Zstd, data: Bytes, sb: Superblock): Option<seq<nat>> {
    match ReadLookupTable(z, data, sb.idTableStart, sb.idCount, ID_SIZE)
    case None => None
    case Some(raw) => Some(seq(|raw| / ID_SIZE, i requires 0 <= i < |raw| / ID_SIZE => U32At(raw, ID_SIZE * i)))
  }

  function ReadFragmentTable(z: Zstd, data: Bytes, sb: Superblock): Option<seq<FragmentEntry>> {
    if sb.fragmentTableStart == INVALID_BLK || sb.fragmentEntryCount == 0 then Some([])
    else
      match ReadLookupTable(z, data, sb.fragmentTableStart, sb.fragmentEntryCount, FRAGMENT_ENTRY_SIZE)
      case None => None
      case Some(raw) =>
        Some(seq(|raw| / FRAGMENT_ENTRY_SIZE, i requires 0 <= i < |raw| / FRAGMENT_ENTRY_SIZE =>
          FragmentEntry(U64At(raw, FRAGMENT_ENTRY_SIZE * i), U32At(raw, FRAGMENT_ENTRY_SIZE * i + 8))))
  }

  function Open(z: Zstd, data: Bytes): (r: Option<Image>)
    ensures r.Some? ==> r.value.data == data && r.value.sb.blockSize > 0
  {
    match ParseSuperblock(data)
    case None => None
    case Some(sb) =>
      match ReadIdTable(z, data, sb)
      case None => None
      case Some(ids) =>
        match ReadFragmentTable(z, data, sb)
        case None => None
        case Some(fragments) => Some(Image(data, sb, ids, fragments))
  }

  function GetId(img: Image, idx: nat): Option<nat> {
    if idx < |img.ids| then Some(img.ids[idx]) else None
  }

  function ReadInode(z: Zstd, img: Image, iref: nat): Option<Inode>
    requires img.sb.blockSize > 0
  {
    ParseInode(img.sb.blockSize, StreamFrom(z, img.data, img.sb.inodeTableStart + iref / 0x1_0000), iref % 0x1_0000)
  }

  /** Entry data of a directory is 3 bytes shorter than its recorded size. */
  function DirDataSize(fileSize: nat): nat {
    if fileSize < 3 then 0 else fileSize - 3
  }

  function ReadDir(z: Zstd, img: Image, dir: Inode): Option<seq<DirEntryInfo>>
    requires dir.DirInode?
  {
    var s := StreamFrom(z, img.data, img.sb.directoryTableStart + dir.startBlock);
    if dir.offset > |s| then None
    else ParseGroups(s, dir.offset, 0, DirDataSize(dir.fileSize))
  }

  function ReadTail(z: Zstd, img: Image, file: Inode, soFar: nat): Option<Bytes>
    requires file.FileInode?
  {
    if file.fragment == NO_FRAGMENT then Some([])
    else if file.fragment >= |img.fragments| || file.fileSize < soFar then None
    else
      match ReadFragmentBlock(z, img.sb.blockSize, img.data, img.fragments[file.fragment])
      case None => None
      case Some(block) =>
        var end := file.fragmentOffset + (file.fileSize - soFar);
        if end > |block| then None else Some(block[file.fragmentOffset..end])
  }

  function ReadFile(z: Zstd, img: Image, file: Inode): Option<Bytes>
    requires file.FileInode?
  {
    match ReadBlocks(z, img.sb.blockSize, img.data, file.blockSizes, file.startBlock)
    case None => None
    case Some(head) =>
      match ReadTail(z, img, file, |head|)
      case None => None
      case Some(tail) => if |head + tail| == file.fileSize then Some(head + tail) else None
  }

  // ----- walking -----

  const SLASH: byte := 47

  function Join(path: Bytes, name: Bytes): Bytes {
    if path == [SLASH] then [SLASH] + name else path + [SLASH] + name
  }

  /** What a walk comes to: the callback's invocations; an error; or neither, within the
      number of directory levels it was followed for. */
  datatype Walked = Visits(visits: seq<Visit>) | Failed | TooDeep

  /** `first`, and unless that has stopped the walk, `next`. */
  function Then(first: Walked, next: Walked): Walked {
    if !first.Visits? then first
    else if !next.Visits? then next
    else Visits(first.visits + next.visits)
  }

  /** The entries of a directory and everything below them. */
  function WalkDirectory(z: Zstd, img: Image, dir: Inode, path: Bytes, levels: nat): Walked
    requires img.sb.blockSize > 0 && dir.DirInode?
    decreases levels, 0
  {
    match ReadDir(z, img, dir)
    case None => Failed
    case Some(entries) => if levels == 0 then TooDeep else WalkEntries(z, img, entries, path, levels - 1)
  }

  function WalkEntries(z: Zstd, img: Image, entries: seq<DirEntryInfo>, path: Bytes, levels: nat): Walked
    requires img.sb.blockSize > 0
    decreases levels, 2 + |entries|
  {
    if entries == [] then Visits([])
    else
      Then(WalkNode(z, img, entries[0].inodeRef, Join(path, entries[0].name), levels),
           WalkEntries(z, img, entries[1..], path, levels))
  }

  /** The visit of one inode, then those of everything below it. */
  function WalkNode(z: Zstd, img: Image, iref: nat, path: Bytes, levels: nat): Walked
    requires img.sb.blockSize > 0
    decreases levels, 1
  {
    match ReadInode(z, img, iref)
    case None => Failed
    case Some(inode) =>
      if !inode.DirInode? then Visits([Visit(path, inode)])
      else Then(Visits([Visit(path, inode)]), WalkDirectory(z, img, inode, path, levels))
  }

  function Walk(z: Zstd, img: Image, levels: nat): Walked
    requires img.sb.blockSize > 0
  {
    WalkNode(z, img, img.sb.rootInodeRef, [SLASH], levels)
  }

  /** The walk ends, and `r` is what it comes to. */
  ghost predicate WalksTo(z: Zstd, img: Image, r: Walked)
    requires img.sb.blockSize > 0
  {
    r != TooDeep && exists levels :: Walk(z, img, levels) == r
  }

  /** A walk that has ended within some levels comes to the same within more. */
  lemma {:induction false} DirectoryDeeper(z: Zstd, img: Image, dir: Inode, path: Bytes, a: nat, b: nat)
    requires img.sb.blockSize > 0 && dir.DirInode? && a <= b && WalkDirectory(z, img, dir, path, a) != TooDeep
    ensures WalkDirectory(z, img, dir, path, b) == WalkDirectory(z, img, dir, path, a)
    decreases a, 0
  {
    hide ReadDir, WalkEntries;
    match ReadDir(z, img, dir)
    case None =>
    case Some(entries) => EntriesDeeper(z, img, entries, path, a - 1, b - 1);
  }

  lemma {:induction false} EntriesDeeper(z: Zstd, img: Image, entries: seq<DirEntryInfo>, path: Bytes, a: nat, b: nat)
    requires img.sb.blockSize > 0 && a <= b && WalkEntries(z, img, entries, path, a) != TooDeep
    ensures WalkEntries(z, img, entries, path, b) == WalkEntries(z, img, entries, path, a)
    decreases a, 2 + |entries|
  {
    hide WalkNode, Join;
    if entries != [] {
      NodeDeeper(z, img, entries[0].inodeRef, Join(path, entries[0].name), a, b);
      if WalkNode(z, img, entries[0].inodeRef, Join(path, entries[0].name), a).Visits? {
        EntriesDeeper(z, img, entries[1..], path, a, b);
      }
    }
  }

  lemma {:induction false} NodeDeeper(z: Zstd, img: Image, iref: nat, path: Bytes, a: nat, b: nat)
    requires img.sb.blockSize > 0 && a <= b && WalkNode(z, img, iref, path, a) != TooDeep
    ensures WalkNode(z, img, iref, path, b) == WalkNode(z, img, iref, path, a)
    decreases a, 1
  {
    hide ReadInode, WalkDirectory;
    match ReadInode(z, img, iref)
    case None =>
    case Some(inode) => if inode.DirInode? { DirectoryDeeper(z, img, inode, path, a, b); }
  }

  /** So a walk comes to one thing. */
  lemma WalksToOne(z: Zstd, img: Image, r: Walked, q: Walked)
    requires img.sb.blockSize > 0 && WalksTo(z, img, r) && WalksTo(z, img, q)
    ensures r == q
  {
    hide WalkNode;
    var a :| Walk(z, img, a) == r;
    var b :| Walk(z, img, b) == q;
    if a <= b {
      NodeDeeper(z, img, img.sb.rootInodeRef, [SLASH], a, b);
    } else {
      NodeDeeper(z, img, img.sb.rootInodeRef, [SLASH], b, a);
    }
  }
}
