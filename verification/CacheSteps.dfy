/** What `build_object` and `seed_stable_object` do to the disk, call by call, with the process
    killed after any of the calls that leave a trace. */
module CacheSteps {
  import opened Wrappers
  import opened FreshPair
  import opened FileStore
  import Depfile

  /** The entry is in order: see `FreshPair.PairOk`. */
  ghost predicate EntryOk(c: Compiler, d: Disk, k: Key) {
    PairOk(c, k, d.Find(Object(k)), d.Find(Rules(k)), d.Tree())
  }

  ghost predicate CacheOk(c: Compiler, d: Disk) {
    forall k :: EntryOk(c, d, k)
  }

  /** Every depfile in the cache can be split into words. */
  ghost predicate Readable(d: Disk) {
    forall k :: d.Find(Rules(k)).Some? ==> Listed(d.Find(Rules(k)).value).Some?
  }

  /** The entry's object is what a direct compile with its flags gives right now. */
  ghost predicate Delivers(c: Compiler, d: Disk, k: Key) {
    Exact(c, k, d.Find(Object(k)), d.Tree())
  }

  /** The depfile that is there lists everything a compile of the entry reads now. */
  ghost predicate Covered(c: Compiler, d: Disk, k: Key) {
    var outcome := c.run(k.flags, k.source, Contents(d.Tree()));
    d.Find(Rules(k)).Some? && outcome.Compiled? && ListsAll(d.Find(Rules(k)).value, Reads(outcome.rule))
  }

  /** Where the process is killed, if anywhere. */
  datatype Cut = ObjectReady | ObjectPlaced | RulesReady | RulesPlaced | Never

  // ------------------------------------------------------------------ compiling

  /** After the compiler ran: both results under temporary names. */
  function Prepared(d: Disk, k: Key, owner: nat, code: Content, rule: Depfile.Rule): Disk {
    d.Create(Temporary(Object(k), owner), code)
     .Create(Temporary(Rules(k), owner), Text(Depfile.Print(rule)))
  }

  /** `os.replace` of one of the temporary names onto its target. */
  function Placed(d: Disk, target: Name, owner: nat): Disk
    requires Temporary(target, owner) in d.names
  {
    d.Replace(Temporary(target, owner), target).Unlink(Temporary(target, owner))
  }

  /** The two replacements of `build_object`, in their order, up to the cut. */
  function Stored(d: Disk, k: Key, owner: nat, code: Content, rule: Depfile.Rule, cut: Cut): Disk {
    var (tempObject, tempRules) := (Temporary(Object(k), owner), Temporary(Rules(k), owner));
    var d1 := Prepared(d, k, owner, code, rule);
    if cut.ObjectReady? || tempObject !in d1.names then d1
    else
      var d2 := Placed(d1, Object(k), owner);
      if cut.ObjectPlaced? || cut.RulesReady? || tempRules !in d2.names then d2
      else Placed(d2, Rules(k), owner)
  }

  /** `build_object`. */
  function BuildTo(c: Compiler, d: Disk, k: Key, owner: nat, cut: Cut): Disk {
    if d.Freshness(k) != Stale then d
    else
      match c.run(k.flags, k.source, Contents(d.Tree()))
      case Failed => d
      case Compiled(code, rule) => Stored(d, k, owner, code, rule, cut)
  }

  /** The names a build or a seeding of `k` by process `owner` may move. */
  function Area(k: Key, owner: nat): set<Name> {
    {Object(k), Rules(k), Temporary(Object(k), owner), Temporary(Rules(k), owner)}
  }

  /** Nothing but the entry `k` and this process's temporary names changed. */
  ghost predicate OnlyEntry(d: Disk, e: Disk, k: Key, owner: nat) {
    e.Valid() && Kept(d, e, Area(k, owner)) && e.names.Keys <= d.names.Keys + Area(k, owner)
  }

  /** One more name written, linked or moved inside the area. */
  lemma StillOnlyEntry(d: Disk, e: Disk, f: Disk, k: Key, owner: nat, moved: set<Name>)
    requires OnlyEntry(d, e, k, owner) && moved <= Area(k, owner)
    requires f.Valid() && Kept(e, f, moved) && f.names.Keys <= e.names.Keys + moved
    ensures OnlyEntry(d, f, k, owner)
    ensures forall n :: n !in moved ==> f.Find(n) == e.Find(n)
  {
    KeptFinds(e, f, moved);
    KeptWider(e, f, moved, Area(k, owner));
    KeptTwice(d, e, f, Area(k, owner));
  }

  lemma NothingYet(d: Disk, k: Key, owner: nat)
    requires d.Valid()
    ensures OnlyEntry(d, d, k, owner)
  {}

  lemma PreparedLeaves(d: Disk, k: Key, owner: nat, code: Content, rule: Depfile.Rule)
    requires d.Valid() && d.Unused(owner)
    ensures var e := Prepared(d, k, owner, code, rule);
            && OnlyEntry(d, e, k, owner)
            && e.names.Keys == d.names.Keys + {Temporary(Object(k), owner), Temporary(Rules(k), owner)}
            && e.Find(Temporary(Object(k), owner)) == Some(File(code, d.clock + 1))
            && e.Find(Temporary(Rules(k), owner)) == Some(File(Text(Depfile.Print(rule)), d.clock + 2))
            && e.Find(Object(k)) == d.Find(Object(k)) && e.Find(Rules(k)) == d.Find(Rules(k))
  {
    hide OnlyEntry, Disk.Valid, Disk.Find;
    var (tempObject, tempRules) := (Temporary(Object(k), owner), Temporary(Rules(k), owner));
    assert tempObject !in d.names && tempRules !in d.names;
    var d0 := d.Create(tempObject, code);
    NothingYet(d, k, owner);
    CreateLeaves(d, tempObject, code);
    StillOnlyEntry(d, d, d0, k, owner, {tempObject});
    CreateLeaves(d0, tempRules, Text(Depfile.Print(rule)));
    StillOnlyEntry(d, d0, Prepared(d, k, owner, code, rule), k, owner, {tempRules});
  }

  lemma StillUnused(d: Disk, e: Disk, k: Key, owner: nat)
    requires d.Unused(owner) && e.names.Keys <= d.names.Keys + {Object(k), Rules(k)}
    ensures e.Unused(owner)
  {
    forall n | n in e.names && n.Temporary? ensures n.owner != owner { assert n in d.names; }
  }

  lemma PlacedLeaves(d: Disk, e: Disk, k: Key, owner: nat, target: Name)
    requires OnlyEntry(d, e, k, owner)
    requires target == Object(k) || target == Rules(k)
    requires Temporary(target, owner) in e.names
    ensures var f := Placed(e, target, owner);
            && OnlyEntry(d, f, k, owner)
            && f.names.Keys == e.names.Keys - {Temporary(target, owner)} + {target}
            && f.Find(target) == e.Find(Temporary(target, owner))
            && (forall n :: n != target && n != Temporary(target, owner) ==> f.Find(n) == e.Find(n))
  {
    var temp := Temporary(target, owner);
    ReplaceLeaves(e, temp, target);
    StillOnlyEntry(d, e, Placed(e, target, owner), k, owner, {temp, target});
  }

  /** What a store leaves: the new pair under the entry's names, or only its first half, and nothing
      else moved or rewritten. */
  lemma StoredLeaves(d: Disk, k: Key, owner: nat, code: Content, rule: Depfile.Rule, cut: Cut)
    requires d.Valid() && d.Unused(owner)
    ensures var e := Stored(d, k, owner, code, rule, cut);
            && OnlyEntry(d, e, k, owner)
            && e.Find(Object(k)) == (if cut.ObjectReady? then d.Find(Object(k)) else Some(File(code, d.clock + 1)))
            && e.Find(Rules(k)) == (if cut.RulesPlaced? || cut.Never?
                                    then Some(File(Text(Depfile.Print(rule)), d.clock + 2))
                                    else d.Find(Rules(k)))
            && (cut.RulesPlaced? || cut.Never? ==> e.names.Keys <= d.names.Keys + {Object(k), Rules(k)})
  {
    hide OnlyEntry, Disk.Valid, Prepared, Placed, Disk.Unused, Disk.Find;
    PreparedLeaves(d, k, owner, code, rule);
    var d1 := Prepared(d, k, owner, code, rule);
    if !cut.ObjectReady? {
      PlacedLeaves(d, d1, k, owner, Object(k));
      if cut.RulesPlaced? || cut.Never? {
        PlacedLeaves(d, Placed(d1, Object(k), owner), k, owner, Rules(k));
      }
    }
  }

  /** The names are there that the two replacements need. */
  lemma StoredUnfolds(d: Disk, k: Key, owner: nat, code: Content, rule: Depfile.Rule, cut: Cut)
    requires d.Valid() && d.Unused(owner)
    ensures var d1 := Prepared(d, k, owner, code, rule);
            && Temporary(Object(k), owner) in d1.names
            && (cut.ObjectReady? ==> Stored(d, k, owner, code, rule, cut) == d1)
            && var d2 := Placed(d1, Object(k), owner);
               && Temporary(Rules(k), owner) in d2.names
               && (cut.ObjectPlaced? || cut.RulesReady? ==> Stored(d, k, owner, code, rule, cut) == d2)
               && (cut.RulesPlaced? || cut.Never? ==>
                     Stored(d, k, owner, code, rule, cut) == Placed(d2, Rules(k), owner))
  {
    hide OnlyEntry, Prepared, Placed;
    PreparedLeaves(d, k, owner, code, rule);
    PlacedLeaves(d, Prepared(d, k, owner, code, rule), k, owner, Object(k));
  }

  lemma OnlyEntryMeans(c: Compiler, d: Disk, e: Disk, k: Key, owner: nat)
    requires d.Valid() && OnlyEntry(d, e, k, owner)
    ensures e.Tree() == d.Tree()
    ensures forall j: Key :: j != k ==> e.Find(Object(j)) == d.Find(Object(j)) && e.Find(Rules(j)) == d.Find(Rules(j))
    ensures forall j: Key :: j != k ==> (EntryOk(c, d, j) <==> EntryOk(c, e, j))
  {
    KeptFinds(d, e, Area(k, owner));
  }

  lemma BuildStep(c: Compiler, d: Disk, k: Key, owner: nat, cut: Cut)
    requires d.Valid() && d.Unused(owner)
    ensures OnlyEntry(d, BuildTo(c, d, k, owner, cut), k, owner)
    ensures cut.Never? ==> BuildTo(c, d, k, owner, cut).Unused(owner)
  {
    if d.Freshness(k).Stale? && c.run(k.flags, k.source, Contents(d.Tree())).Compiled? {
      var outcome := c.run(k.flags, k.source, Contents(d.Tree()));
      StoredLeaves(d, k, owner, outcome.code, outcome.rule, cut);
      if cut.Never? { StillUnused(d, BuildTo(c, d, k, owner, cut), k, owner); }
    }
  }

  lemma BuildKeepsReadable(c: Compiler, d: Disk, k: Key, owner: nat, cut: Cut)
    requires Faithful(c) && d.Valid() && d.Unused(owner) && Readable(d)
    ensures Readable(BuildTo(c, d, k, owner, cut))
  {
    var e := BuildTo(c, d, k, owner, cut);
    var outcome := c.run(k.flags, k.source, Contents(d.Tree()));
    BuildStep(c, d, k, owner, cut);
    OnlyEntryMeans(c, d, e, k, owner);
    if d.Freshness(k).Stale? && outcome.Compiled? {
      StoredLeaves(d, k, owner, outcome.code, outcome.rule, cut);
      Depfile.ParsePrint(outcome.rule);
    }
    forall j | e.Find(Rules(j)).Some? ensures Listed(e.Find(Rules(j)).value).Some? {
      if j != k { assert e.Find(Rules(j)) == d.Find(Rules(j)); }
    }
  }

  lemma TreeNotNewer(d: Disk)
    requires d.Valid()
    ensures forall p :: p in d.Tree() ==> d.Tree()[p].mtime <= d.clock
  {}

  /** A build that ran to its end leaves its entry in order, and unless the compiler failed or the
      depfile could not be split into words, the entry now delivers. */
  lemma BuildDelivers(c: Compiler, d: Disk, k: Key, owner: nat)
    requires Faithful(c) && d.Valid() && d.Unused(owner) && EntryOk(c, d, k)
    ensures var e := BuildTo(c, d, k, owner, Never);
            && EntryOk(c, e, k)
            && (d.Freshness(k) != Raises && c.run(k.flags, k.source, Contents(d.Tree())).Compiled? ==>
                Delivers(c, e, k) && e.Freshness(k) == Fresh)
  {
    var e := BuildTo(c, d, k, owner, Never);
    var outcome := c.run(k.flags, k.source, Contents(d.Tree()));
    BuildStep(c, d, k, owner, Never);
    OnlyEntryMeans(c, d, e, k, owner);
    if d.Freshness(k).Stale? && outcome.Compiled? {
      StoredLeaves(d, k, owner, outcome.code, outcome.rule, Never);
      TreeNotNewer(d);
      CompileMakes(c, k, d.Tree(), d.clock + 1, d.clock + 2);
    }
  }

  /** A kill after `os.replace(object_tmp, object_file)` and before the depfile follows leaves the
      entry in order exactly when the depfile already there lists all that the new compile read, or
      lists nothing or something that does not exist, which keeps the entry stale. On a first build there is
      no depfile, so it is in order. All of this can be read off the disk before the build. */
  lemma KilledBetween(c: Compiler, d: Disk, k: Key, owner: nat)
    requires d.Valid() && d.Unused(owner)
    requires d.Freshness(k) == Stale && c.run(k.flags, k.source, Contents(d.Tree())).Compiled?
    ensures EntryOk(c, BuildTo(c, d, k, owner, ObjectPlaced), k) <==>
              (Passes(d.Find(Rules(k)), d.Tree(), d.clock) ==> Covered(c, d, k))
    ensures Passes(d.Find(Rules(k)), d.Tree(), d.clock) <==>
              && d.Find(Rules(k)).Some? && Listed(d.Find(Rules(k)).value).Some? && Listed(d.Find(Rules(k)).value).value != []
              && forall p :: p in Listed(d.Find(Rules(k)).value).value ==> p in d.Tree()
  {
    hide AllCurrent, Listed, OnlyEntry, Stored;
    var outcome := c.run(k.flags, k.source, Contents(d.Tree()));
    StoredLeaves(d, k, owner, outcome.code, outcome.rule, ObjectPlaced);
    BuildStep(c, d, k, owner, ObjectPlaced);
    OnlyEntryMeans(c, d, BuildTo(c, d, k, owner, ObjectPlaced), k, owner);
    NewObjectOldRules(c, k, d.Tree(), d.clock + 1, d.Find(Rules(k)));
    PassesMeans(Some(File(outcome.code, d.clock + 1)), d.Find(Rules(k)), d.Tree());
    TreeNotNewer(d);
    PassesLater(d.Find(Rules(k)), d.Tree(), d.clock, d.clock + 1);
  }

  // -------------------------------------------------------------------- seeding

  /** A hard link, or a copy where linking fails. */
  function Bring(d: Disk, from: Name, to: Name, copied: bool): Disk
    requires d.Find(from).Some?
  {
    if copied then d.Copy(from, to) else d.Link(from, to)
  }

  /** One turn of the loop in `seed_stable_object`. */
  function Carry(d: Disk, from: Name, to: Name, owner: nat, copied: bool): Disk
    requires d.Find(from).Some?
  {
    var temp := Temporary(to, owner);
    Placed(Bring(d, from, temp, copied), to, owner)
  }

  lemma BringLeaves(d: Disk, from: Name, to: Name, copied: bool)
    requires d.Valid() && from in d.names && to !in d.names
    ensures var e := Bring(d, from, to, copied);
            && e.Valid() && Kept(d, e, {to}) && e.names.Keys == d.names.Keys + {to}
            && e.Find(to) == d.Find(from)
  {
    if copied { CopyLeaves(d, from, to); } else { LinkLeaves(d, from, to); }
  }

  lemma CarryLeaves(d: Disk, from: Name, to: Name, owner: nat, copied: bool)
    requires d.Valid() && from in d.names && from != to && Temporary(to, owner) !in d.names
    ensures var e := Carry(d, from, to, owner, copied);
            && e.Valid() && Kept(d, e, {to, Temporary(to, owner)})
            && e.names.Keys == d.names.Keys + {to}
            && e.Find(to) == d.Find(from)
            && e.Find(from) == d.Find(from)
  {
    var temp := Temporary(to, owner);
    var d1 := Bring(d, from, temp, copied);
    BringLeaves(d, from, temp, copied);
    ReplaceLeaves(d1, temp, to);
    var e := Carry(d, from, to, owner, copied);
    KeptTwice(d, d1, e, {to, temp});
    KeptFinds(d, e, {to, temp});
  }

  lemma CarriedLeaves(d: Disk, e: Disk, from: Name, k: Key, owner: nat, to: Name, copied: bool)
    requires OnlyEntry(d, e, k, owner) && (to == Object(k) || to == Rules(k))
    requires from in e.names && from != to && Temporary(to, owner) !in e.names
    ensures var f := Carry(e, from, to, owner, copied);
            && OnlyEntry(d, f, k, owner)
            && f.names.Keys == e.names.Keys + {to}
            && f.Find(to) == e.Find(from)
            && (forall n :: n != to && n != Temporary(to, owner) ==> f.Find(n) == e.Find(n))
  {
    CarryLeaves(e, from, to, owner, copied);
    StillOnlyEntry(d, e, Carry(e, from, to, owner, copied), k, owner, {to, Temporary(to, owner)});
  }

  /** Whether `seed_stable_object` gets as far as linking. */
  predicate SeedsNow(d: Disk, from: Key, to: Key) {
    d.Freshness(from) == Fresh && d.Freshness(to) == Stale
  }

  /** `seed_stable_object`; `copied` says for each file whether linking failed. */
  function SeedTo(d: Disk, from: Key, to: Key, owner: nat, copied: (bool, bool), cut: Cut): Disk {
    if !SeedsNow(d, from, to) then d
    else if cut.ObjectReady? then Bring(d, Object(from), Temporary(Object(to), owner), copied.0)
    else
      var d1 := Carry(d, Object(from), Object(to), owner, copied.0);
      if cut.ObjectPlaced? || d1.Find(Rules(from)).None? then d1
      else if cut.RulesReady? then Bring(d1, Rules(from), Temporary(Rules(to), owner), copied.1)
      else Carry(d1, Rules(from), Rules(to), owner, copied.1)
  }

  /** The disk after the first turn of the seeding loop. */
  lemma SeedHalfway(d: Disk, from: Key, to: Key, owner: nat, copied: bool)
    requires d.Valid() && d.Unused(owner) && SeedsNow(d, from, to)
    ensures from != to
    ensures var e := Carry(d, Object(from), Object(to), owner, copied);
            && OnlyEntry(d, e, to, owner)
            && e.names.Keys == d.names.Keys + {Object(to)}
            && e.Find(Object(to)) == d.Find(Object(from))
            && e.Find(Rules(from)) == d.Find(Rules(from))
            && e.Find(Rules(to)) == d.Find(Rules(to))
  {
    CarriedLeaves(d, d, Object(from), to, owner, Object(to), copied);
  }

  lemma SeedComplete(d: Disk, e: Disk, from: Key, to: Key, owner: nat, copied: bool)
    requires d.Valid() && d.Unused(owner) && from != to && OnlyEntry(d, e, to, owner)
    requires e.names.Keys == d.names.Keys + {Object(to)} && Rules(from) in e.names
    ensures var f := Carry(e, Rules(from), Rules(to), owner, copied);
            && OnlyEntry(d, f, to, owner)
            && f.names.Keys == d.names.Keys + {Object(to), Rules(to)}
            && f.Find(Object(to)) == e.Find(Object(to))
            && f.Find(Rules(to)) == e.Find(Rules(from))
  {
    hide OnlyEntry, Carry;
    CarriedLeaves(d, e, Rules(from), to, owner, Rules(to), copied);
  }

  lemma SeedReady(d: Disk, e: Disk, from: Name, to: Key, target: Name, owner: nat, copied: bool)
    requires d.Valid() && d.Unused(owner) && OnlyEntry(d, e, to, owner)
    requires e.names.Keys <= d.names.Keys + {Object(to)} && from in e.names
    requires target == Object(to) || target == Rules(to)
    ensures var f := Bring(e, from, Temporary(target, owner), copied);
            && OnlyEntry(d, f, to, owner)
            && f.Find(Object(to)) == e.Find(Object(to))
            && f.Find(Rules(to)) == e.Find(Rules(to))
  {
    var temp := Temporary(target, owner);
    BringLeaves(e, from, temp, copied);
    StillOnlyEntry(d, e, Bring(e, from, temp, copied), to, owner, {temp});
  }

  lemma SeedLeaves(d: Disk, from: Key, to: Key, owner: nat, copied: (bool, bool), cut: Cut)
    requires d.Valid() && d.Unused(owner) && SeedsNow(d, from, to)
    ensures var e := SeedTo(d, from, to, owner, copied, cut);
            && OnlyEntry(d, e, to, owner)
            && e.Find(Object(to)) == (if cut.ObjectReady? then d.Find(Object(to)) else d.Find(Object(from)))
            && e.Find(Rules(to)) == (if cut.RulesPlaced? || cut.Never? then d.Find(Rules(from)) else d.Find(Rules(to)))
            && (cut.RulesPlaced? || cut.Never? ==> e.names.Keys <= d.names.Keys + {Object(to), Rules(to)})
  {
    hide OnlyEntry, Carry, Bring, Disk.Valid, Disk.Unused;
    if cut.ObjectReady? {
      NothingYet(d, to, owner);
      SeedReady(d, d, Object(from), to, Object(to), owner, copied.0);
    } else {
      SeedHalfway(d, from, to, owner, copied.0);
      var d1 := Carry(d, Object(from), Object(to), owner, copied.0);
      if cut.RulesReady? {
        SeedReady(d, d1, Rules(from), to, Rules(to), owner, copied.1);
      } else if !cut.ObjectPlaced? {
        SeedComplete(d, d1, from, to, owner, copied.1);
      }
    }
  }

  /** Seeding hands over contents and time stamps, so the target is as fresh as the old entry was,
      and in order if the source does not name the version. */
  lemma SeedDelivers(c: Compiler, d: Disk, from: Key, to: Key, owner: nat, copied: (bool, bool))
    requires Faithful(c) && VersionOnlyWhereNamed(c) && d.Valid() && d.Unused(owner)
    requires SeedsNow(d, from, to) && EntryOk(c, d, from)
    requires from.source == to.source && StableFlags(from.flags) == StableFlags(to.flags)
    requires to.source in d.Tree() && !NamesVersion(d.Tree()[to.source].content)
    ensures var e := SeedTo(d, from, to, owner, copied, Never);
            && e.Freshness(to) == Fresh && EntryOk(c, e, to) && Delivers(c, e, to)
            && e.Find(Object(to)) == d.Find(Object(from)) == e.Find(Object(from))
            && e.Find(Rules(to)) == d.Find(Rules(from)) == e.Find(Rules(from))
  {
    var e := SeedTo(d, from, to, owner, copied, Never);
    SeedLeaves(d, from, to, owner, copied, Never);
    OnlyEntryMeans(c, d, e, to, owner);
    SeedKeeps(c, from, to, d.Find(Object(from)), d.Find(Rules(from)), d.Tree());
  }

  /** The time stamp a seeding from this entry hands over. */
  function Stamp(d: Disk, k: Key): nat {
    if d.Find(Object(k)).Some? then d.Find(Object(k)).value.mtime else 0
  }

  /** The same exact condition for a seeding killed after its first replacement, with the time stamp of the
      object handed over. */
  lemma SeedKilledBetween(c: Compiler, d: Disk, from: Key, to: Key, owner: nat, copied: (bool, bool), cut: Cut)
    requires VersionOnlyWhereNamed(c) && d.Valid() && d.Unused(owner)
    requires SeedsNow(d, from, to) && EntryOk(c, d, from)
    requires from.source == to.source && StableFlags(from.flags) == StableFlags(to.flags)
    requires to.source in d.Tree() && !NamesVersion(d.Tree()[to.source].content)
    requires cut.ObjectPlaced? || cut.RulesReady?
    ensures EntryOk(c, SeedTo(d, from, to, owner, copied, cut), to) <==>
              (Passes(d.Find(Rules(to)), d.Tree(), Stamp(d, from)) ==> Covered(c, d, to))
  {
    hide AllCurrent, Listed, OnlyEntry, Carry, Bring;
    var e := SeedTo(d, from, to, owner, copied, cut);
    SeedLeaves(d, from, to, owner, copied, cut);
    OnlyEntryMeans(c, d, e, to, owner);
    assert Contents(d.Tree())[to.source] == d.Tree()[to.source].content;
    PassesMeans(e.Find(Object(to)), e.Find(Rules(to)), e.Tree());
  }

  // ------------------------------------------------------------ a leftover temporary name

  /** One turn of the seeding loop whatever is lying about. Where an earlier process of the same number was
      killed and left the temporary name, linking fails and the copy writes into the file behind it,
      unless that is the very file to be copied, which the copy refuses. */
  function CarryAnyway(d: Disk, from: Name, to: Name, owner: nat): Disk
    requires d.Find(from).Some?
  {
    var temp := Temporary(to, owner);
    if temp !in d.names || temp == from then Carry(d, from, to, owner, false)
    else if d.names[temp] == d.names[from] then d.Unlink(temp)
    else Placed(d.Overwrite(from, temp), to, owner)
  }

  /** With no name left over it is the turn described above; with one, no other file changes if and only if
      the file behind it has no other name, or none whose file differs from the one copied. */
  lemma LeftoverCarries(d: Disk, from: Name, to: Name, owner: nat)
    requires d.Valid() && d.Find(from).Some? && from != Temporary(to, owner) && from != to
    ensures var (temp, e) := (Temporary(to, owner), CarryAnyway(d, from, to, owner));
            (forall n :: n != to && n != temp ==> e.Find(n) == d.Find(n)) <==>
            (temp in d.names && d.names[temp] != d.names[from] ==>
               forall n :: n in d.names && n != to && n != temp && d.names[n] == d.names[temp] ==>
                 d.Find(n) == d.Find(from))
    ensures Temporary(to, owner) !in d.names ==> CarryAnyway(d, from, to, owner) == Carry(d, from, to, owner, false)
  {
    var (temp, e) := (Temporary(to, owner), CarryAnyway(d, from, to, owner));
    if temp !in d.names {
      CarryLeaves(d, from, to, owner, false);
    } else if d.names[temp] != d.names[from] {
      forall n | n != to && n != temp
        ensures e.Find(n) == if n in d.names && d.names[n] == d.names[temp] then d.Find(from) else d.Find(n)
      {
        LeftoverFinds(d, from, to, owner, n);
      }
    }
  }

  lemma LeftoverFinds(d: Disk, from: Name, to: Name, owner: nat, n: Name)
    requires d.Valid() && d.Find(from).Some? && n != to && n != Temporary(to, owner)
    requires from != Temporary(to, owner) && Temporary(to, owner) in d.names
    requires d.names[Temporary(to, owner)] != d.names[from]
    ensures CarryAnyway(d, from, to, owner).Find(n) ==
            if n in d.names && d.names[n] == d.names[Temporary(to, owner)] then d.Find(from) else d.Find(n)
  {}
}
