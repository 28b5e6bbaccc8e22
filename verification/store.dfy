/** The in-memory chest map and its operations (VirtualChestManager).
    Each key maps to a live chest or to a tombstone: a chest that was
    removed and whose file is deleted at the next save. */
module ChestStore {
  import opened Inventory
  import opened Disk
  import opened Players

  /** The Java map stores null as the tombstone. */
  datatype Entry = Live(inv: Inventory) | Tombstone

  type Chests = map<string, Entry>

  predicate IsLive(chests: Chests, key: string) {
    key in chests && chests[key].Live?
  }

  /** getChest: the chest stored under the resolved key, or a fresh empty
      chest put there when the key is absent or tombstoned. */
  function GetChest(chests: Chests, players: seq<Player>, input: string): (r: (Chests, Inventory))
    ensures var key := Resolve(players, input);
      && r.0.Keys == chests.Keys + {key}
      && r.0[key] == Live(r.1)
      && (forall k :: k in chests && k != key ==> r.0[k] == chests[k])
      && (IsLive(chests, key) ==> r.0 == chests && r.1 == chests[key].inv)
      && (!IsLive(chests, key) ==> r.1 == EmptyChest())
  {
    var key := Resolve(players, input);
    if IsLive(chests, key) then (chests, chests[key].inv)
    else (chests[key := Live(EmptyChest())], EmptyChest())
  }

  /** removeChest: tombstones the resolved key and touches nothing else;
      no file is involved. */
  function RemoveChest(chests: Chests, players: seq<Player>, input: string): (r: Chests)
    ensures var key := Resolve(players, input);
      && r.Keys == chests.Keys + {key}
      && r[key] == Tombstone
      && (forall k :: k in chests && k != key ==> r[k] == chests[k])
  {
    chests[Resolve(players, input) := Tombstone]
  }

  /** getChestCount: the size of the map, tombstones included. */
  function ChestCount(chests: Chests): (n: nat)
    ensures n == |LiveKeys(chests)| + |TombstonedKeys(chests)|
  {
    assert chests.Keys == LiveKeys(chests) + TombstonedKeys(chests);
    |chests|
  }

  function LiveKeys(chests: Chests): set<string> {
    set k | k in chests && chests[k].Live?
  }

  function TombstonedKeys(chests: Chests): set<string> {
    set k | k in chests && chests[k].Tombstone?
  }

  ghost predicate NoTombstones(chests: Chests) {
    forall k :: k in chests ==> chests[k].Live?
  }

  /** `chests'` holds exactly the live entries of `chests`, unchanged. */
  ghost predicate Flushed(chests: Chests, chests': Chests) {
    && (forall k :: k in chests' <==> IsLive(chests, k))
    && (forall k :: k in chests' ==> k in chests && chests'[k] == chests[k])
  }

  /** The live entries whose file a save writes successfully. */
  function WrittenKeys(chests: Chests, disk: Disk): set<string> {
    set k | k in chests && chests[k].Live? && ChestFile(k) !in disk.readOnly
  }

  function FileNames(chests: Chests): set<string> {
    set k | k in chests :: ChestFile(k)
  }

  /** What a save leaves in the file of `key`: gone for a tombstone, the
      chest for a live entry, and the old file when the write fails. */
  predicate SavedFile(chests: Chests, disk: Disk, disk': Disk, key: string)
    requires key in chests
  {
    var f := ChestFile(key);
    match chests[key]
    case Tombstone => f !in disk'.files
    case Live(inv) =>
      if f in disk.readOnly then Untouched(disk, disk', f)
      else f in disk'.files && disk'.files[f] == Serialized(inv)
  }

  /** The folder after a save: every entry's file as SavedFile says, every
      other file as it was. */
  ghost predicate SaveEffect(chests: Chests, disk: Disk, disk': Disk) {
    && disk'.readOnly == disk.readOnly
    && (forall k :: k in chests ==> SavedFile(chests, disk, disk', k))
    && (forall n :: n !in FileNames(chests) ==> Untouched(disk, disk', n))
  }

  /** save: deletes the file of, and drops, every tombstoned entry; writes
      every live entry, keeping it in memory whether or not the write
      succeeds; returns the number of successful writes. The map is
      visited in no particular order. */
  method Save(chests: Chests, disk: Disk) returns (chests': Chests, disk': Disk, saved: nat)
    ensures NoTombstones(chests')
    ensures Flushed(chests, chests')
    ensures SaveEffect(chests, disk, disk')
    ensures saved == |WrittenKeys(chests, disk)|
    ensures saved <= |LiveKeys(chests)|
  {
    chests', disk', saved := chests, disk, 0;
    var todo := chests.Keys;
    while todo != {}
      invariant todo <= chests.Keys
      invariant SavedSoFar(chests, disk, todo, chests', disk', saved)
      decreases todo
    {
      var key :| key in todo;
      var c, d, s := chests', disk', saved;
      var file := ChestFile(key);
      match chests[key] {
        case Tombstone =>
          disk' := Delete(disk', file);
          chests' := chests' - {key};
        case Live(inv) =>
          match Write(disk', file, inv) {
            case Some(d) =>
              disk' := d;
              saved := saved + 1;
            case None =>
          }
      }
      SaveStep(chests, disk, todo, key, c, d, s, chests', disk', saved);
      todo := todo - {key};
    }
    assert WrittenKeys(chests, disk) <= LiveKeys(chests);
    SubsetCardinality(WrittenKeys(chests, disk), LiveKeys(chests));
  }

  /** The loop invariant of Save: the keys outside `todo` are saved, those
      inside are as they were. */
  ghost predicate SavedSoFar(chests: Chests, disk: Disk, todo: set<string>, chests': Chests, disk': Disk, saved: nat)
  {
    && (forall k :: k in chests' <==> k in chests && (k in todo || chests[k].Live?))
    && (forall k :: k in chests' ==> k in chests && chests'[k] == chests[k])
    && disk'.readOnly == disk.readOnly
    && (forall k :: k in chests && k !in todo ==> SavedFile(chests, disk, disk', k))
    && (forall k :: k in todo ==> Untouched(disk, disk', ChestFile(k)))
    && (forall n :: n !in FileNames(chests) ==> Untouched(disk, disk', n))
    && saved == |WrittenKeys(chests, disk) - todo|
  }

  /** Saving the entry of `key` extends the saved part by that key. */
  lemma SaveStep(chests: Chests, disk: Disk, todo: set<string>, key: string,
                 c: Chests, d: Disk, s: nat, c': Chests, d': Disk, s': nat)
    requires todo <= chests.Keys && key in todo
    requires SavedSoFar(chests, disk, todo, c, d, s)
    requires chests[key].Tombstone? ==> c' == c - {key} && d' == Delete(d, ChestFile(key)) && s' == s
    requires chests[key].Live? ==>
      c' == c && var w := Write(d, ChestFile(key), chests[key].inv);
      if w.Some? then d' == w.value && s' == s + 1 else d' == d && s' == s
    ensures SavedSoFar(chests, disk, todo - {key}, c', d', s')
  {
    var file := ChestFile(key);
    var rest := todo - {key};
    forall k | k in chests && k != key ensures ChestFile(k) != file {
      ChestFileInjective(k, key);
    }
    SaveStepDisk(chests, disk, todo, key, d, d');
    var written := WrittenKeys(chests, disk);
    if key in written {
      assert written - rest == (written - todo) + {key};
    } else {
      assert written - rest == written - todo;
    }
  }

  /** The folder part of SaveStep. */
  lemma SaveStepDisk(chests: Chests, disk: Disk, todo: set<string>, key: string, d: Disk, d': Disk)
    requires todo <= chests.Keys && key in todo
    requires forall k :: k in chests && k != key ==> ChestFile(k) != ChestFile(key)
    requires d.readOnly == disk.readOnly
    requires forall k :: k in chests && k !in todo ==> SavedFile(chests, disk, d, k)
    requires forall k :: k in todo ==> Untouched(disk, d, ChestFile(k))
    requires forall n :: n !in FileNames(chests) ==> Untouched(disk, d, n)
    requires d'.readOnly == d.readOnly
    requires forall n :: n != ChestFile(key) ==> Untouched(d, d', n)
    requires SavedFile(chests, d, d', key)
    ensures forall k :: k in chests && k !in todo - {key} ==> SavedFile(chests, disk, d', k)
    ensures forall k :: k in todo - {key} ==> Untouched(disk, d', ChestFile(k))
    ensures forall n :: n !in FileNames(chests) ==> Untouched(disk, d', n)
  {
    assert ChestFile(key) in FileNames(chests);
    forall k | k in chests && k !in todo - {key} ensures SavedFile(chests, disk, d', k) {
      if k != key {
        SavedFileKept(chests, disk, d, d', k);
      }
    }
    forall k | k in todo - {key} ensures Untouched(disk, d', ChestFile(k)) {
      assert Untouched(disk, d, ChestFile(k)) && Untouched(d, d', ChestFile(k));
    }
    forall n | n !in FileNames(chests) ensures Untouched(disk, d', n) {
      assert Untouched(disk, d, n) && Untouched(d, d', n);
    }
  }

  /** The saved state of a file survives changes to other files. */
  lemma SavedFileKept(chests: Chests, disk: Disk, d: Disk, d': Disk, k: string)
    requires k in chests
    requires SavedFile(chests, disk, d, k)
    requires Untouched(d, d', ChestFile(k))
    ensures SavedFile(chests, disk, d', k)
  {
  }

  lemma SubsetCardinality<T>(a: set<T>, b: set<T>)
    requires a <= b
    ensures |a| <= |b|
  {
    assert b == a + (b - a);
  }

  /** Asking twice for the same chest, with nothing in between, gives the
      same chest and changes nothing the second time. */
  lemma GetChestTwice(chests: Chests, players: seq<Player>, input: string)
    ensures var (c1, chest) := GetChest(chests, players, input);
      GetChest(c1, players, input) == (c1, chest)
  {
  }

  /** Removal is not undone by a later get: the chest then handed out is a
      fresh empty one, whatever the removed chest held. */
  lemma RemoveThenGet(chests: Chests, players: seq<Player>, input: string)
    ensures var (c1, chest) := GetChest(RemoveChest(chests, players, input), players, input);
      chest == EmptyChest() && c1 == chests[Resolve(players, input) := Live(EmptyChest())]
  {
  }

  /** A tombstone keeps its place in the count until the next save, which
      counts only live chests afterwards. */
  lemma CountAfterRemove(chests: Chests, players: seq<Player>, input: string)
    ensures ChestCount(RemoveChest(chests, players, input))
         == ChestCount(chests) + (if Resolve(players, input) in chests then 0 else 1)
  {
  }

  lemma CountAfterFlush(chests: Chests, chests': Chests)
    requires Flushed(chests, chests')
    ensures ChestCount(chests') == |LiveKeys(chests)|
  {
    assert chests'.Keys == LiveKeys(chests);
  }

  /** A second save right after a first changes nothing: the map and the
      folder stay as the first save left them, and it reports the same
      count. */
  lemma SaveTwice(chests: Chests, disk: Disk, c1: Chests, d1: Disk, c2: Chests, d2: Disk)
    requires Flushed(chests, c1) && SaveEffect(chests, disk, d1)
    requires Flushed(c1, c2) && SaveEffect(c1, d1, d2)
    ensures c2 == c1
    ensures d2 == d1
    ensures WrittenKeys(c1, d1) == WrittenKeys(chests, disk)
  {
    forall n | n in d1.files || n in d2.files
      ensures n in d1.files && n in d2.files && d2.files[n] == d1.files[n]
    {
      if n in FileNames(c1) {
        var k :| k in c1 && n == ChestFile(k);
        assert SavedFile(c1, d1, d2, k);
        assert SavedFile(chests, disk, d1, k);
      } else {
        assert Untouched(d1, d2, n);
      }
    }
  }
}
