/** Runs of file operations by path. Every run is a trace of an abstract file system: each command has
    the effect on names that its path and the names before it determine, and no other. */
module Fat32Runs {
  import opened Basics
  import opened Fat32Layout
  import opened Fat32Chain
  import opened Fat32Grow
  import opened Fat32Directory
  import opened Fat32Tree
  import opened Fat32Store
  import opened Fat32Volume
  import opened Fat32Names
  import opened Fat32FileSystem

  type Word = w: seq<Byte> | 0 !in w

  datatype Operation =
    | Create(path: seq<Word>, name: Word)
    | Write(path: seq<Word>, name: Word, offset: nat, bytes: seq<Byte>)
    | Mkdir(path: seq<Word>, name: Word)
    | Unlink(path: seq<Word>, name: Word)
    | Rename(path: seq<Word>, name: Word, path': seq<Word>, name': Word)

  /** The driver's offsets and lengths have 32 bits. */
  type Command = c: Operation | c.Write? ==> c.offset + |c.bytes| < 0x1_0000_0000 witness Unlink([], [])

  /** A volume at one moment: its image, the live chains and which of them are directories. */
  datatype Snapshot = Snapshot(im: Image, chains: map<nat, seq<nat>>, dirs: set<nat>)

  ghost predicate Sane(g: Geometry, root: nat, s: Snapshot) {
    ImageOk(g, s.im, s.chains) && TreeOk(StoreOf(g, s.im, s.chains), s.dirs, root)
  }

  ghost function Files(g: Geometry, root: nat, s: Snapshot): (m: Store)
    requires Sane(g, root, s)
    ensures s.dirs <= m.Keys && root in s.dirs
  {
    StoreOf(g, s.im, s.chains)
  }

  ghost predicate Full(g: Geometry, s: Snapshot) { FullBelow(s.im.fat, g.Clusters()) }

  /** The directory a path leads to from d. */
  ghost function Resolved(m: Store, d: nat, path: seq<Word>): (r: Option<nat>)
    requires d in m
    ensures r.Some? ==> r.value in m
    decreases |path|
  {
    if path == [] then Some(d)
    else
      var node := View(m, d, DosName(path[0]));
      if node.Folder? && node.cluster in m then Resolved(m, node.cluster, path[1..]) else None
  }

  /** A name of a directory. */
  type Place = (nat, Name)

  /** The places a command is about. */
  ghost function Aims(m: Store, root: nat, cmd: Command): set<Place>
    requires root in m
  {
    match Resolved(m, root, cmd.path)
    case None => {}
    case Some(d) =>
      if !cmd.Rename? then {(d, DosName(cmd.name))}
      else
        match Resolved(m, root, cmd.path')
        case None => {}
        case Some(d') => {(d, DosName(cmd.name)), (d', DosName(cmd.name'))}
  }

  /** The directory an unlink takes away, if that is what its name stands for. */
  ghost function Dropped(m: Store, root: nat, cmd: Command): set<nat>
    requires root in m
  {
    match Resolved(m, root, cmd.path)
    case None => {}
    case Some(d) =>
      var node := View(m, d, DosName(cmd.name));
      if cmd.Unlink? && node.Folder? then {node.cluster} else {}
  }

  /** No name stands for anything else. */
  ghost predicate Idle(m: Store, dirs: set<nat>, m': Store, dirs': set<nat>) {
    dirs' == dirs && AllSame(m, dirs, m', dirs)
  }

  /** What a command on name n of directory d does. It may fail for want of space only on a full volume. */
  ghost predicate Acts(g: Geometry, root: nat, s: Snapshot, cmd: Command, d: nat, s': Snapshot)
    requires Sane(g, root, s) && Sane(g, root, s') && !cmd.Rename?
    requires d in Files(g, root, s)
  {
    var m, m', n := Files(g, root, s), Files(g, root, s'), DosName(cmd.name);
    var node := View(m, d, n);
    && match cmd
       case Create(_, _) =>
         if node != Missing then Idle(m, s.dirs, m', s'.dirs)
         else (Full(g, s') && Idle(m, s.dirs, m', s'.dirs)) || Creates(m, s.dirs, d, n, m', s'.dirs)
       case Mkdir(_, _) =>
         if node != Missing then Idle(m, s.dirs, m', s'.dirs)
         else (Full(g, s') && Idle(m, s.dirs, m', s'.dirs)) || Makes(root, m, s, d, n, m', s')
       case Write(_, _, offset, bytes) =>
         if node.File? then Writes(g, s, m, d, n, offset, bytes, m', s'.dirs)
         else Idle(m, s.dirs, m', s'.dirs)
       case Unlink(_, _) =>
         if node == Missing then Idle(m, s.dirs, m', s'.dirs) else Unlinks(m, s, d, n, m', s')
  }

  ghost predicate Creates(m: Store, dirs: set<nat>, d: nat, n: Name, m': Store, dirs': set<nat>) {
    && dirs' == dirs && OthersSame(m, dirs, m', dirs', d, n)
    && d in m' && View(m', d, n) == if n[0] == DELETED then Missing else File([], 0)
  }

  ghost predicate Makes(root: nat, m: Store, s: Snapshot, d: nat, n: Name, m': Store, s': Snapshot) {
    && OthersSame(m, s.dirs, m', s'.dirs, d, n) && d in m'
    && var node := View(m', d, n);
    if n[0] == DELETED then s'.dirs == s.dirs && node == Missing
    else
      && node.Folder? && node.cluster !in s.chains && s'.dirs == s.dirs + {node.cluster}
      && EmptyFolder(m', node.cluster) && Dotted(m'[node.cluster], node.cluster, if d == root then 0 else d)
  }

  /** The bytes that a write to a file starts from: its chain's, or a first cluster of zeros. */
  ghost function EntryRoom(g: Geometry, m: Store, e: Entry32): seq<Byte> {
    if ClusterOf(e) in m then m[ClusterOf(e)] else Zeros(ClusterSize(g))
  }

  /** How many bytes a write to that entry's file can place. */
  ghost function WriteCount(g: Geometry, s: Snapshot, m: Store, e: Entry32, offset: nat, want: nat): (count: nat)
    ensures count <= want
  {
    Fitting(ClusterSize(g), |EntryRoom(g, m, e)|, offset, want, Spare(s.im.fat, ClusterOf(e)))
  }

  ghost predicate StallsAt(g: Geometry, s: Snapshot, m: Store, e: Entry32, offset: nat) {
    Stalls(s.im.fat, ClusterOf(e), |EntryRoom(g, m, e)|, offset)
  }

  /** A write, at any offset: nothing if it stalls; else the chain's bytes, what the name shows of them and
      the length are functions of what there was, and of how many clusters were free. */
  ghost predicate Writes(g: Geometry, s: Snapshot, m: Store, d: nat, n: Name, offset: nat, bytes: seq<Byte>, m': Store, dirs': set<nat>) {
    && dirs' == s.dirs && d in m && d in m' && Lookup(Slots(m[d]), n).Some?
    && var e := Lookup(Slots(m[d]), n).value;
    if StallsAt(g, s, m, e, offset) then AllSame(m, s.dirs, m', dirs')
    else
      && OthersSame(m, s.dirs, m', dirs', d, n) && ClusterSize(g) > 0
      && var t := bytes[..WriteCount(g, s, m, e, offset, |bytes|)];
      && var room, size := Overlaid(ClusterSize(g), EntryRoom(g, m, e), offset, t), Larger(SizeOf(e), offset + |t|);
      && View(m', d, n) == File(Prefix(room, size), size)
      && Lookup(Slots(m'[d]), n).Some? && EntryRoom(g, m', Lookup(Slots(m'[d]), n).value) == room
  }

  /** The name is gone, with a directory it stood for, and exactly its chain is free again. A directory
      that holds its own entry goes with it. */
  ghost predicate Unlinks(m: Store, s: Snapshot, d: nat, n: Name, m': Store, s': Snapshot) {
    && OthersSame(m, s.dirs, m', s'.dirs, d, n)
    && d in m && Lookup(Slots(m[d]), n).Some?
    && (if View(m, d, n) == Folder(d) then d !in s'.dirs else d in s'.dirs && d in m' && View(m', d, n) == Missing)
    && var c := ClusterOf(Lookup(Slots(m[d]), n).value);
    && s'.chains == s.chains - {c} && s'.dirs == s.dirs - {c}
    && Freeing(s.im.fat, if c in s.chains then s.chains[c] else [], s'.im.fat)
  }

  /** What a rename does, putting a directory into itself included. */
  ghost predicate Moves(g: Geometry, root: nat, s: Snapshot, d: nat, n: Name, d': nat, n': Name, s': Snapshot)
    requires Sane(g, root, s) && Sane(g, root, s') && d in Files(g, root, s)
  {
    var m, m' := Files(g, root, s), Files(g, root, s');
    var node := View(m, d, n);
    && s'.dirs == s.dirs
    && if node == Missing then AllSame(m, s.dirs, m', s'.dirs)
       else (Full(g, s') && AllSame(m, s.dirs, m', s'.dirs)) || Renamed(m, s.dirs, d, n, d', n', m')
  }

  /** What one command does to the whole volume. */
  ghost predicate Effect(g: Geometry, root: nat, s: Snapshot, cmd: Command, s': Snapshot)
    requires Sane(g, root, s) && Sane(g, root, s')
  {
    var m, m' := Files(g, root, s), Files(g, root, s');
    match Resolved(m, root, cmd.path)
    case None => Idle(m, s.dirs, m', s'.dirs)
    case Some(d) =>
      if !cmd.Rename? then d in s.dirs && Acts(g, root, s, cmd, d, s')
      else
        match Resolved(m, root, cmd.path')
        case None => Idle(m, s.dirs, m', s'.dirs)
        case Some(d') => d in s.dirs && d' in s.dirs && Moves(g, root, s, d, DosName(cmd.name), d', DosName(cmd.name'), s')
  }

  ghost predicate Trace(g: Geometry, root: nat, states: seq<Snapshot>, cmds: seq<Command>) {
    && |states| == |cmds| + 1
    && (forall i :: 0 <= i < |states| ==> Sane(g, root, states[i]))
    && (forall i :: 0 <= i < |cmds| ==> Effect(g, root, states[i], cmds[i], states[i + 1]))
  }

  /** Directory d is not dropped by the first k commands, and none of them is about its name n. */
  ghost predicate Spared(g: Geometry, root: nat, states: seq<Snapshot>, cmds: seq<Command>, d: nat, n: Name, k: nat)
    requires Trace(g, root, states, cmds) && k <= |cmds|
  {
    forall i :: 0 <= i < k ==>
      var m := Files(g, root, states[i]);
      d !in Dropped(m, root, cmds[i]) && (d, n) !in Aims(m, root, cmds[i])
  }

  /** One command leaves every directory it does not drop, and every name it is not about. */
  lemma EffectFrame(g: Geometry, root: nat, s: Snapshot, cmd: Command, s': Snapshot, d: nat, n: Name)
    requires Sane(g, root, s) && Sane(g, root, s') && Effect(g, root, s, cmd, s') && d in s.dirs && Proper(n)
    requires d !in Dropped(Files(g, root, s), root, cmd) && (d, n) !in Aims(Files(g, root, s), root, cmd)
    ensures d in s'.dirs && View(Files(g, root, s'), d, n) == View(Files(g, root, s), d, n)
  {
    hide Sane, Resolved, DosName, Slots, Lookup, FullBelow, EmptyFolder, Dotted, Freeing, HoleBefore, Overlaid, Stalls, Fitting, Prefix, EntryRoom;
    var m := Files(g, root, s);
    if cmd.Unlink? && Resolved(m, root, cmd.path).Some? {
      var e := Resolved(m, root, cmd.path).value;
      DosNameProper(cmd.name);
      if View(m, e, DosName(cmd.name)) != Missing { UnlinkedDirs(g, root, s, e, DosName(cmd.name)); }
    }
  }

  /** The chain an unlinked entry owns is a directory's exactly when the name stands for a directory. */
  lemma UnlinkedDirs(g: Geometry, root: nat, s: Snapshot, d: nat, n: Name)
    requires Sane(g, root, s) && d in s.dirs && d in Files(g, root, s) && View(Files(g, root, s), d, n) != Missing
    requires Proper(n)
    ensures Lookup(Slots(Files(g, root, s)[d]), n).Some?
    ensures var c := ClusterOf(Lookup(Slots(Files(g, root, s)[d]), n).value);
            c in s.dirs <==> View(Files(g, root, s), d, n) == Folder(c)
  {
    var m := Files(g, root, s);
    var e := Lookup(Slots(m[d]), n).value;
    var k := LookupOwner(m, s.dirs, root, d, n, e);
  }

  /** Over a whole run: a name no command was about, in a directory none took away, stands for what it
      stood for before. */
  lemma {:induction false} SparedSame(g: Geometry, root: nat, states: seq<Snapshot>, cmds: seq<Command>, d: nat, n: Name, k: nat)
    requires Trace(g, root, states, cmds) && k <= |cmds| && d in states[0].dirs && Proper(n)
    requires Spared(g, root, states, cmds, d, n, k)
    ensures d in states[k].dirs && View(Files(g, root, states[k]), d, n) == View(Files(g, root, states[0]), d, n)
  {
    hide Sane, Effect, View, Aims, Dropped;
    if k > 0 {
      SparedSame(g, root, states, cmds, d, n, k - 1);
      EffectFrame(g, root, states[k - 1], cmds[k - 1], states[k], d, n);
    }
  }

  /** Every file has as many bytes as its length says. */
  ghost predicate Whole(g: Geometry, root: nat, s: Snapshot)
    requires Sane(g, root, s)
  {
    var m := Files(g, root, s);
    forall d, n: Name :: d in s.dirs && Proper(n) ==> Honest(View(m, d, n))
  }

  /** A write so far past the end of its file's chain that the chain will not reach the new length. */
  ghost predicate Overshoots(g: Geometry, root: nat, s: Snapshot, cmd: Command)
    requires Sane(g, root, s)
  {
    && cmd.Write? && ClusterSize(g) > 0
    && var m := Files(g, root, s);
    match Resolved(m, root, cmd.path)
    case None => false
    case Some(d) =>
      match Lookup(Slots(m[d]), DosName(cmd.name))
      case None => false
      case Some(e) =>
        && !IsDirectory(e) && !StallsAt(g, s, m, e, cmd.offset)
        && !Reaches(ClusterSize(g), |EntryRoom(g, m, e)|, cmd.offset, WriteCount(g, s, m, e, cmd.offset, |cmd.bytes|))
  }

  /** On a volume of honest files a command leaves one exactly when it does not overshoot. */
  lemma WholeStep(g: Geometry, root: nat, s: Snapshot, cmd: Command, s': Snapshot)
    requires Sane(g, root, s) && Sane(g, root, s') && Effect(g, root, s, cmd, s') && Whole(g, root, s)
    ensures Whole(g, root, s') <==> !Overshoots(g, root, s, cmd)
  {
    hide Sane, Resolved, DosName, Slots, Lookup, FullBelow, Freeing, HoleBefore, StallsAt, Overlaid, Reaches, WriteCount, EntryRoom, Prefix;
    var m, m' := Files(g, root, s), Files(g, root, s');
    if cmd.Write? && Resolved(m, root, cmd.path).Some? {
      WholeWrite(g, root, s, cmd, Resolved(m, root, cmd.path).value, s');
    } else {
      forall d, n: Name | d in s'.dirs && Proper(n) ensures Honest(View(m', d, n)) {
        HonestKept(g, root, s, cmd, s', d, n);
      }
    }
  }

  lemma HonestKept(g: Geometry, root: nat, s: Snapshot, cmd: Command, s': Snapshot, d: nat, n: Name)
    requires Sane(g, root, s) && Sane(g, root, s') && Effect(g, root, s, cmd, s') && Whole(g, root, s)
    requires d in s'.dirs && Proper(n) && (cmd.Write? ==> Resolved(Files(g, root, s), root, cmd.path) == None)
    ensures Honest(View(Files(g, root, s'), d, n))
  {
    hide Sane, Resolved, DosName, Slots, Lookup, FullBelow, Freeing, HoleBefore, Writes;
    DosNameProper(cmd.name);
    if cmd.Rename? { DosNameProper(cmd.name'); }
  }

  lemma WholeWrite(g: Geometry, root: nat, s: Snapshot, cmd: Command, d: nat, s': Snapshot)
    requires Sane(g, root, s) && Sane(g, root, s') && Effect(g, root, s, cmd, s') && Whole(g, root, s)
    requires cmd.Write? && Resolved(Files(g, root, s), root, cmd.path) == Some(d)
    ensures Whole(g, root, s') <==> !Overshoots(g, root, s, cmd)
  {
    hide Sane, Resolved, DosName, Slots, Lookup, StallsAt, Overlaid, Reaches, WriteCount, EntryRoom, NewRoom;
    var m, m', n := Files(g, root, s), Files(g, root, s'), DosName(cmd.name);
    DosNameProper(cmd.name);
    var l := Lookup(Slots(m[d]), n);
    if l.Some? && !IsDirectory(l.value) && !StallsAt(g, s, m, l.value, cmd.offset) {
      var room := EntryRoom(g, m, l.value);
      var count := WriteCount(g, s, m, l.value, cmd.offset, |cmd.bytes|);
      RoomReaches(g, m, l.value);
      LengthReached(ClusterSize(g), |room|, SizeOf(l.value), cmd.offset, count);
      assert Honest(View(m', d, n)) <==> Reaches(ClusterSize(g), |room|, cmd.offset, count);
    }
  }

  lemma RoomReaches(g: Geometry, m: Store, e: Entry32)
    requires Honest(NodeOf(m, e)) && !IsDirectory(e)
    ensures SizeOf(e) <= |EntryRoom(g, m, e)|
  {}

  /** So every file stays honest in every run without an overshooting write. */
  lemma {:induction false} WholeRun(g: Geometry, root: nat, states: seq<Snapshot>, cmds: seq<Command>, k: nat)
    requires Trace(g, root, states, cmds) && k <= |cmds| && Whole(g, root, states[0])
    requires forall i :: 0 <= i < k ==> !Overshoots(g, root, states[i], cmds[i])
    ensures Whole(g, root, states[k])
  {
    hide Sane, Effect, Whole, Overshoots;
    if k > 0 {
      WholeRun(g, root, states, cmds, k - 1);
      WholeStep(g, root, states[k - 1], cmds[k - 1], states[k]);
    }
  }

  /** The plainest such write: no bytes, more than a cluster past the end of the chain. One cluster is
      linked, and the offset becomes the length. */
  method Overshoot(fs: FileSystem, node: Fat32FileSystem.Node, offset: nat, ghost d: nat, ghost n: nat, ghost i: nat, ghost k: nat)
    returns (count: nat)
    requires fs.Valid() && fs.Names(node, d, n, i, k) && node.length <= |fs.Room(node)|
    requires |fs.Room(node)| + ClusterSize(fs.vol.g) < offset < 0x1_0000_0000 && FreeCount(fs.vol.Im().fat) >= 2
    modifies fs.vol`disk, fs.vol.cache, fs.vol.cache.entries, fs`chains, node`inode, node`length
    ensures fs.Valid() && fs.Names(node, d, n, i, k) && count == 0
    ensures node.length == offset && |fs.Room(node)| == |old(fs.Room(node))| + ClusterSize(fs.vol.g)
    ensures !Honest(View(fs.Contents(), d, NameOf(EntryAt(fs.Contents(), d, k))))
  {
    hide Abs, Content, Slots, ImageOk, TreeOk, SlotAt, Describes, View, NameOf, OthersSame, AllSame, FreeCount, Overlaid;
    NodeEntry(fs.Contents(), fs.dirs, fs.root, d, k, node.inode, node.length);
    ghost var stalled;
    count, stalled := fs.Write(node, offset, [], d, n, i, k);
    NodeEntry(fs.Contents(), fs.dirs, fs.root, d, k, node.inode, node.length);
  }

  ghost function Snap(fs: FileSystem): Snapshot
    reads fs, fs.vol
    requires Fits(fs.vol.g, fs.vol.disk)
  {
    Snapshot(fs.vol.Im(), fs.chains, fs.dirs)
  }

  /** One step of a path: the directory a name stands for. */
  method Enter(fs: FileSystem, d: nat, name: Word) returns (ok: bool, c: nat)
    requires fs.Valid() && d in fs.dirs
    modifies fs.vol.cache, fs.vol.cache.entries
    ensures fs.Valid()
    ensures ok <==> View(fs.Contents(), d, DosName(name)).Folder?
    ensures ok ==> c in fs.dirs && View(fs.Contents(), d, DosName(name)) == Folder(c)
  {
    hide Abs, Content, Slots, ImageOk, SlotAt, At, DosName, Lookup, DirOk, NoSharing;
    var dos := ToDosName(name);
    DosNameProper(name);
    var found, sector, offset, entry;
    ghost var n, i, k;
    found, sector, offset, entry, n, i, k := fs.FindDirent(d, dos);
    if !found { return false, 0; }
    UnlinkTarget(fs.Contents(), fs.dirs, fs.root, d, k, dos);
    ok, c := IsDirectory(entry), ClusterOf(entry);
  }

  /** The directory a path leads to from the root. */
  method Resolve(fs: FileSystem, path: seq<Word>) returns (ok: bool, d: nat)
    requires fs.Valid()
    modifies fs.vol.cache, fs.vol.cache.entries
    ensures fs.Valid() && fs.root in fs.Contents()
    ensures Resolved(fs.Contents(), fs.root, path) == if ok then Some(d) else None
    ensures ok ==> d in fs.dirs
  {
    hide Abs, Content, Slots, ImageOk, TreeOk, View, Lookup;
    ok, d := true, fs.root;
    RootKept(fs);
    for j := 0 to |path|
      invariant fs.Valid() && d in fs.dirs && d in fs.Contents()
      invariant Resolved(fs.Contents(), fs.root, path) == Resolved(fs.Contents(), d, path[j..])
    {
      assert path[j..][0] == path[j] && path[j..][1..] == path[j + 1..];
      ok, d := Enter(fs, d, path[j]);
      RootKept(fs);
      if !ok { return; }
    }
  }

  lemma RootKept(fs: FileSystem)
    requires fs.Valid()
    ensures fs.root in fs.dirs && fs.dirs <= fs.Contents().Keys && Sane(fs.vol.g, fs.root, Snap(fs))
    ensures Files(fs.vol.g, fs.root, Snap(fs)) == fs.Contents()
  {
    hide Abs, Content, Slots, NoSharing, DirOk, Chains;
  }

  /** A write to the file a name stands for. */
  method WriteNamed(fs: FileSystem, d: nat, name: Word, offset: nat, bytes: seq<Byte>)
    requires fs.Valid() && d in fs.dirs && offset + |bytes| < 0x1_0000_0000
    modifies fs.vol`disk, fs.vol.cache, fs.vol.cache.entries, fs`chains
    ensures fs.Valid() && fs.dirs == old(fs.dirs)
    ensures d in old(fs.Contents()) && d in fs.Contents()
    ensures var m, m', n := old(fs.Contents()), fs.Contents(), DosName(name);
            if View(m, d, n).File? then Writes(fs.vol.g, old(Snap(fs)), m, d, n, offset, bytes, m', fs.dirs)
            else AllSame(m, fs.dirs, m', fs.dirs)
  {
    hide Abs, Content, Slots, ImageOk, TreeOk, SlotAt, OthersSame, AllSame, DosName, Replaced, NameOf, FullBelow, Lookup,
         Overlaid, Fitting, Stalls, Prefix, Describes, View;
    ghost var m := fs.Contents();
    RootKept(fs);
    SameStore(m, fs.dirs);
    var node;
    ghost var n, i, k;
    node, n, i, k := fs.Open(d, name);
    if node == null { return; }
    NodeEntry(m, fs.dirs, fs.root, d, k, node.inode, node.length);
    var count, stalled := fs.Write(node, offset, bytes, d, n, i, k);
    RootKept(fs);
    NodeEntry(fs.Contents(), fs.dirs, fs.root, d, k, node.inode, node.length);
  }

  lemma NodeEntry(m: Store, dirs: set<nat>, root: nat, d: nat, k: nat, inode: nat, length: nat)
    requires TreeOk(m, dirs, root) && Describes(m, dirs, d, k, inode, length)
    ensures d in m && k < |m[d]| / 32
    ensures var l := Lookup(Slots(m[d]), NameOf(EntryAt(m, d, k)));
            l.Some? && ClusterOf(l.value) == inode && SizeOf(l.value) == length
    ensures inode != 0 <==> inode in m
  {
    LookupAt(Slots(m[d]), NameOf(EntryAt(m, d, k)), k);
  }

  /** An operation on one name of directory d. */
  method OnName(fs: FileSystem, cmd: Command, d: nat)
    requires fs.Valid() && d in fs.dirs && !cmd.Rename?
    modifies fs.vol`disk, fs.vol.cache, fs.vol.cache.entries, fs`chains, fs`dirs
    ensures fs.Valid() && d in old(fs.Contents())
    ensures Sane(fs.vol.g, fs.root, old(Snap(fs))) && Sane(fs.vol.g, fs.root, Snap(fs))
    ensures Acts(fs.vol.g, fs.root, old(Snap(fs)), cmd, d, Snap(fs))
  {
    hide Abs, Content, Slots, ImageOk, TreeOk, OthersSame, AllSame, DosName, FullBelow, Freeing, EmptyFolder, Dotted, Sane, Files, Writes, Lookup;
    ghost var m, dirs := fs.Contents(), fs.dirs;
    RootKept(fs);
    SameStore(m, dirs);
    LookupView(m, d, DosName(cmd.name));
    match cmd {
      case Create(_, name) => var _ := fs.Create(d, name);
      case Write(_, name, offset, bytes) => WriteNamed(fs, d, name, offset, bytes);
      case Mkdir(_, name) => var _ := fs.Mkdir(d, name);
      case Unlink(_, name) => var _ := fs.Unlink(d, name);
    }
    RootKept(fs);
  }

  lemma LookupView(m: Store, d: nat, n: Name)
    requires d in m
    ensures View(m, d, n) == Missing <==> Lookup(Slots(m[d]), n) == None
  {}

  /** A rename. */
  method Move(fs: FileSystem, d: nat, name: Word, d': nat, name': Word)
    requires fs.Valid() && d in fs.dirs && d' in fs.dirs
    modifies fs.vol`disk, fs.vol.cache, fs.vol.cache.entries, fs`chains
    ensures fs.Valid() && d in old(fs.Contents())
    ensures Sane(fs.vol.g, fs.root, old(Snap(fs))) && Sane(fs.vol.g, fs.root, Snap(fs))
    ensures Moves(fs.vol.g, fs.root, old(Snap(fs)), d, DosName(name), d', DosName(name'), Snap(fs))
  {
    hide Abs, Content, Slots, ImageOk, TreeOk, Renamed, AllSame, DosName, Lookup, FullBelow, ClusterOf, Sane, Files;
    RootKept(fs);
    LookupView(fs.Contents(), d, DosName(name));
    var _ := fs.Rename(d, name, d', name');
    RootKept(fs);
  }

  /** One command; one whose path leads nowhere does nothing. */
  method Perform(fs: FileSystem, cmd: Command)
    requires fs.Valid()
    modifies fs.vol`disk, fs.vol.cache, fs.vol.cache.entries, fs`chains, fs`dirs
    ensures fs.Valid()
    ensures Sane(fs.vol.g, fs.root, old(Snap(fs))) && Sane(fs.vol.g, fs.root, Snap(fs))
    ensures Effect(fs.vol.g, fs.root, old(Snap(fs)), cmd, Snap(fs))
  {
    hide Abs, Content, Slots, ImageOk, TreeOk, AllSame, DosName, Sane, Files, Acts, Moves, Resolved, Lookup;
    ghost var m := fs.Contents();
    RootKept(fs);
    SameStore(m, fs.dirs);
    var ok, d := Resolve(fs, cmd.path);
    RootKept(fs);
    if !ok { return; }
    if cmd.Rename? {
      var ok', d' := Resolve(fs, cmd.path');
      RootKept(fs);
      if ok' { Move(fs, d, cmd.name, d', cmd.name'); }
    } else {
      OnName(fs, cmd, d);
    }
  }

  /** Every run is a trace: from the volume as it was to the volume as it is, each command had its
      effect and no other. At every moment the chains are acyclic and disjoint and the tree is well
      formed; a name that no command was about, in a directory that none took away, stands for what it
      did before the run; and honest files stay honest unless a write overshoots. */
  method Run(fs: FileSystem, cmds: seq<Command>) returns (ghost states: seq<Snapshot>)
    requires fs.Valid()
    modifies fs.vol`disk, fs.vol.cache, fs.vol.cache.entries, fs`chains, fs`dirs
    ensures fs.Valid() && Trace(fs.vol.g, fs.root, states, cmds)
    ensures states[0] == old(Snap(fs)) && states[|cmds|] == Snap(fs)
    ensures forall d, n: Name :: d in old(fs.dirs) && Proper(n) && Spared(fs.vol.g, fs.root, states, cmds, d, n, |cmds|) ==>
              d in fs.dirs && View(Files(fs.vol.g, fs.root, Snap(fs)), d, n) == View(Files(fs.vol.g, fs.root, states[0]), d, n)
    ensures Whole(fs.vol.g, fs.root, states[0]) && (forall i :: 0 <= i < |cmds| ==> !Overshoots(fs.vol.g, fs.root, states[i], cmds[i])) ==>
              Whole(fs.vol.g, fs.root, Snap(fs))
  {
    hide Abs, Content, Slots, ImageOk, View, DosName, TreeOk, Sane, Effect, Files, Spared, Whole, Overshoots;
    RootKept(fs);
    states := [Snap(fs)];
    for i := 0 to |cmds|
      invariant fs.Valid() && |states| == i + 1 && states[0] == old(Snap(fs)) && states[i] == Snap(fs)
      invariant forall j :: 0 <= j < |states| ==> Sane(fs.vol.g, fs.root, states[j])
      invariant forall j :: 0 <= j < i ==> Effect(fs.vol.g, fs.root, states[j], cmds[j], states[j + 1])
    {
      Perform(fs, cmds[i]);
      states := states + [Snap(fs)];
    }
    if Whole(fs.vol.g, fs.root, states[0]) && forall i :: 0 <= i < |cmds| ==> !Overshoots(fs.vol.g, fs.root, states[i], cmds[i]) {
      WholeRun(fs.vol.g, fs.root, states, cmds, |cmds|);
    }
    forall d, n: Name | d in old(fs.dirs) && Proper(n) && Spared(fs.vol.g, fs.root, states, cmds, d, n, |cmds|)
      ensures d in fs.dirs && View(Files(fs.vol.g, fs.root, Snap(fs)), d, n) == View(Files(fs.vol.g, fs.root, states[0]), d, n)
    {
      SparedSame(fs.vol.g, fs.root, states, cmds, d, n, |cmds|);
    }
  }
}
