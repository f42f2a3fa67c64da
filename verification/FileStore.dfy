/** Names, inodes and time stamps: the part of the file system the object cache leans on.

    Several names may share an inode (`os.link`); a replacement moves a name and never touches the
    inode it used to point at. The clock grows with every write, so each edit is newer than
    everything written before it. */
module FileStore {
  import opened Wrappers
  import opened FreshPair

  /** The names in the cache directory. Temporary names carry the process that uses them. */
  datatype Name =
    | Object(key: Key)
    | Rules(key: Key)
    | Temporary(target: Name, owner: nat)

  type Inode = nat

  datatype Disk = Disk(
    sources: map<string, Inode>,
    names: map<Name, Inode>,
    inodes: map<Inode, File>,
    clock: nat,
    next: Inode)
  {
    /** Every name has a file, no file is newer than the clock, and sources are not hard-linked. */
    ghost predicate Valid() {
      && (forall p :: p in sources ==> sources[p] in inodes)
      && (forall n :: n in names ==> names[n] in inodes)
      && (forall i :: i in inodes ==> i < next && inodes[i].mtime <= clock)
      && (forall p, q :: p in sources && q in sources && p != q ==> sources[p] != sources[q])
      && (forall p, n :: p in sources && n in names ==> sources[p] != names[n])
    }

    /** No temporary name of this process is lying about. */
    ghost predicate Unused(owner: nat) {
      forall n :: n in names && n.Temporary? ==> n.owner != owner
    }

    function Find(n: Name): Option<File> {
      if n in names && names[n] in inodes then Some(inodes[names[n]]) else None
    }

    /** The source tree as a compile and a freshness check see it. */
    function Tree(): Tree {
      map p | p in sources && sources[p] in inodes :: inodes[sources[p]]
    }

    function Freshness(k: Key): Verdict {
      Check(Find(Object(k)), Find(Rules(k)), Tree())
    }

    // ------------------------------------------------------------- system calls

    /** Writing a file under a name nobody uses yet. */
    function Create(n: Name, content: Content): Disk {
      this.(names := names[n := next], inodes := inodes[next := File(content, clock + 1)],
            clock := clock + 1, next := next + 1)
    }

    /** An editor's write: in place when the file exists. */
    function Edit(path: string, content: Content): Disk {
      if path in sources then
        this.(inodes := inodes[sources[path] := File(content, clock + 1)], clock := clock + 1)
      else
        this.(sources := sources[path := next], inodes := inodes[next := File(content, clock + 1)],
              clock := clock + 1, next := next + 1)
    }

    function Delete(path: string): Disk {
      this.(sources := sources - {path})
    }

    function Unlink(n: Name): Disk {
      this.(names := names - {n})
    }

    /** `os.link`. */
    function Link(from: Name, n: Name): Disk
      requires from in names
    {
      this.(names := names[n := names[from]])
    }

    /** `shutil.copy2` onto an unused name: contents and time stamp, in an inode of its own. */
    function Copy(from: Name, n: Name): Disk
      requires from in names && names[from] in inodes
    {
      this.(names := names[n := next], inodes := inodes[next := inodes[names[from]]], next := next + 1)
    }

    /** `shutil.copy2` onto a name in use: the file behind it is rewritten, under all its names. */
    function Overwrite(from: Name, n: Name): Disk
      requires from in names && names[from] in inodes && n in names
    {
      this.(inodes := inodes[names[n] := inodes[names[from]]])
    }

    /** `os.replace`; where both names already share an inode it does nothing at all. */
    function Replace(from: Name, to: Name): Disk
      requires from in names
    {
      if to in names && names[to] == names[from] then this
      else this.(names := (names - {from})[to := names[from]])
    }
  }

  // ----------------------------------------------------------------- framing

  /** Going from `d` to `e` rewrote no inode, touched no source, and moved no name outside `moved`. */
  ghost predicate Kept(d: Disk, e: Disk, moved: set<Name>) {
    && e.sources == d.sources
    && (forall n :: n !in moved ==> (n in d.names <==> n in e.names))
    && (forall n :: n !in moved && n in d.names ==> e.names[n] == d.names[n])
    && (forall i :: i in d.inodes ==> i in e.inodes && e.inodes[i] == d.inodes[i])
    && d.clock <= e.clock
    && d.next <= e.next
  }

  lemma KeptFinds(d: Disk, e: Disk, moved: set<Name>)
    requires d.Valid() && Kept(d, e, moved)
    ensures forall n :: n !in moved ==> e.Find(n) == d.Find(n)
    ensures e.Tree() == d.Tree()
  {
    forall n | n !in moved ensures e.Find(n) == d.Find(n) {
      assert n in d.names <==> n in e.names;
    }
  }

  lemma KeptWider(d: Disk, e: Disk, moved: set<Name>, more: set<Name>)
    requires Kept(d, e, moved) && moved <= more
    ensures Kept(d, e, more)
  {
    forall n | n !in more ensures n !in moved {}
  }

  lemma KeptTwice(d: Disk, e: Disk, f: Disk, moved: set<Name>)
    requires Kept(d, e, moved) && Kept(e, f, moved)
    ensures Kept(d, f, moved)
  {
    forall n | n !in moved
      ensures n in d.names <==> n in f.names
      ensures n in d.names ==> f.names[n] == d.names[n]
    {
      assert n in d.names <==> n in e.names;
    }
  }

  // ---------------------------------------------------- what each call leaves behind

  lemma CreateLeaves(d: Disk, n: Name, content: Content)
    requires d.Valid() && n !in d.names
    ensures var e := d.Create(n, content);
            && e.Valid() && Kept(d, e, {n}) && e.names.Keys == d.names.Keys + {n}
            && e.Find(n) == Some(File(content, d.clock + 1))
  {}

  lemma LinkLeaves(d: Disk, from: Name, n: Name)
    requires d.Valid() && from in d.names && n !in d.names
    ensures var e := d.Link(from, n);
            && e.Valid() && Kept(d, e, {n}) && e.names.Keys == d.names.Keys + {n}
            && e.Find(n) == d.Find(from)
  {}

  lemma CopyLeaves(d: Disk, from: Name, n: Name)
    requires d.Valid() && from in d.names && n !in d.names
    ensures var e := d.Copy(from, n);
            && e.Valid() && Kept(d, e, {n}) && e.names.Keys == d.names.Keys + {n}
            && e.Find(n) == d.Find(from)
  {}

  /** A replacement followed by the `finally` unlink of the temporary name. */
  lemma ReplaceLeaves(d: Disk, from: Name, to: Name)
    requires d.Valid() && from in d.names && from != to
    ensures var e := d.Replace(from, to).Unlink(from);
            && e.Valid() && Kept(d, e, {from, to}) && e.names.Keys == d.names.Keys - {from} + {to}
            && e.Find(to) == d.Find(from)
    ensures to in d.names && d.names[to] == d.names[from] ==> d.Replace(from, to) == d
    ensures !(to in d.names && d.names[to] == d.names[from]) ==> from !in d.Replace(from, to).names
  {}

  lemma EditStaysValid(d: Disk, path: string, content: Content)
    requires d.Valid()
    ensures d.Edit(path, content).Valid()
  {}

  lemma EditTree(d: Disk, path: string, content: Content, p: string)
    requires d.Valid()
    ensures var e := d.Edit(path, content);
            && (p in e.Tree() <==> p == path || p in d.Tree())
            && (p == path ==> e.Tree()[p] == File(content, d.clock + 1))
            && (p != path && p in d.Tree() ==> e.Tree()[p] == d.Tree()[p])
  {
    var e := d.Edit(path, content);
    if p in d.sources && path in d.sources && p != path {
      assert d.sources[p] != d.sources[path];
    }
  }

  lemma EditFinds(d: Disk, path: string, content: Content, n: Name)
    requires d.Valid()
    ensures d.Edit(path, content).Find(n) == d.Find(n)
  {
    if n in d.names && path in d.sources { assert d.names[n] != d.sources[path]; }
  }

  lemma EditLeaves(d: Disk, path: string, content: Content)
    requires d.Valid()
    ensures var e := d.Edit(path, content);
            && e.Valid()
            && e.Tree() == d.Tree()[path := File(content, d.clock + 1)]
            && e.names == d.names
            && (forall n :: e.Find(n) == d.Find(n))
  {
    var e, after := d.Edit(path, content), d.Tree()[path := File(content, d.clock + 1)];
    EditStaysValid(d, path, content);
    forall n ensures e.Find(n) == d.Find(n) { EditFinds(d, path, content, n); }
    assert e.Tree() == after by {
      forall p ensures p in e.Tree() <==> p in after
               ensures p in after ==> e.Tree()[p] == after[p]
      {
        EditTree(d, path, content, p);
      }
    }
  }

  lemma DeleteLeaves(d: Disk, path: string)
    requires d.Valid()
    ensures var e := d.Delete(path);
            && e.Valid()
            && e.Tree() == d.Tree() - {path}
            && e.names == d.names
            && (forall n :: e.Find(n) == d.Find(n))
  {}
}
