/** The one-shot load sweep of VirtualChestManager over the chest folder,
    including the migration of chests named after a player's display name to
    files named after the player's UUID. Every exception raised while one
    file is handled ends the handling of that file only; whatever it changed
    before the exception stays changed. */
module ChestLoad {
  import opened Wrappers
  import opened Text
  import opened Disk
  import opened Players
  import opened ChestStore

  /** What the sweep consults besides the folder: the known players in
      enumeration order, and UUID.fromString followed by toString, which
      yields the canonical form of a UUID or fails. */
  datatype Env = Env(players: seq<Player>, parseUuid: string -> Option<string>)

  datatype State = State(chests: Chests, disk: Disk)

  /** The state of the migration loop over the players: whether a player
      matched (flagPlayerNotFound cleared) and whether an exception left
      the loop. */
  datatype Sweep = Sweep(state: State, found: bool, thrown: bool)

  /** A legacy file stem names a player when it equals the player's
      lower-cased name exactly. */
  predicate Owns(p: Player, stem: string) {
    Lower(p.name) == stem
  }

  /** Every player's id is a UUID in canonical form. */
  predicate CanonicalIds(env: Env) {
    forall i :: 0 <= i < |env.players| ==> env.parseUuid(env.players[i].id) == Some(env.players[i].id)
  }

  /** One pass of the loop body for player `p`: read the legacy file, put it
      under the player's id, write the chest getChest then returns for that
      id to the id's file, and only then delete the legacy file. */
  function MigrateFor(sw: Sweep, p: Player, env: Env, file: string, stem: string): (r: Sweep)
    ensures r.state.disk.readOnly == sw.state.disk.readOnly
    ensures NoTombstones(sw.state.chests) ==> NoTombstones(r.state.chests)
    ensures sw.found ==> r.found
    ensures sw.thrown ==> r == sw
  {
    if sw.thrown || !Owns(p, stem) then sw
    else
      match Read(sw.state.disk, file)
      case None => Sweep(sw.state, true, true)
      case Some(inv) =>
        var (chests, chest) := GetChest(sw.state.chests[p.id := Live(inv)], env.players, p.id);
        match Write(sw.state.disk, ChestFile(p.id), chest)
        case None => Sweep(State(chests, sw.state.disk), true, true)
        case Some(disk) => Sweep(State(chests, Delete(disk, file)), true, false)
  }

  /** The loop over the players; it has no break. */
  function Migrate(sw: Sweep, ps: seq<Player>, env: Env, file: string, stem: string): (r: Sweep)
    ensures r.state.disk.readOnly == sw.state.disk.readOnly
    ensures NoTombstones(sw.state.chests) ==> NoTombstones(r.state.chests)
    ensures sw.found ==> r.found
    decreases |ps|
  {
    if |ps| == 0 then sw
    else Migrate(MigrateFor(sw, ps[0], env, file, stem), ps[1..], env, file, stem)
  }

  /** Loading one file of the listing. */
  function LoadFile(st: State, env: Env, file: string): (r: State)
    ensures r.disk.readOnly == st.disk.readOnly
    ensures NoTombstones(st.chests) ==> NoTombstones(r.chests)
    ensures !IsChestFile(file) ==> r == st
    ensures Read(st.disk, file).None? ==> r == st
    ensures IsChestFile(file) && env.parseUuid(Stem(file)).Some? && Read(st.disk, file).Some? ==>
      r == State(st.chests[env.parseUuid(Stem(file)).value := Live(Read(st.disk, file).value)], st.disk)
  {
    if !IsChestFile(file) then st
    else
      var stem := Stem(file);
      match env.parseUuid(stem)
      case Some(id) =>
        (match Read(st.disk, file)
         case Some(inv) => State(st.chests[id := Live(inv)], st.disk)
         case None => st)
      case None =>
        MigrateUnreadable(Sweep(st, false, false), env.players, env, file, stem);
        MigrateNoOwner(Sweep(st, false, false), env.players, env, file, stem);
        var sw := Migrate(Sweep(st, false, false), env.players, env, file, stem);
        if sw.found then sw.state
        else
          match Read(sw.state.disk, file)
          case Some(inv) => State(sw.state.chests[stem := Live(inv)], sw.state.disk)
          case None => sw.state
  }

  /** The sweep over the folder listing, in listing order. */
  function LoadFiles(st: State, env: Env, listing: seq<string>): (r: State)
    ensures r.disk.readOnly == st.disk.readOnly
    ensures NoTombstones(st.chests) ==> NoTombstones(r.chests)
    decreases |listing|
  {
    if |listing| == 0 then st
    else LoadFiles(LoadFile(st, env, listing[0]), env, listing[1..])
  }

  /** load, run by the constructor on an empty map: every chest it yields
      is live. */
  function Load(disk: Disk, env: Env, listing: seq<string>): (r: State)
    ensures NoTombstones(r.chests)
    ensures r.disk.readOnly == disk.readOnly
  {
    LoadFiles(State(map[], disk), env, listing)
  }

  /** A loop over players none of whom owns the stem changes nothing. */
  lemma {:induction false} MigrateNoOwner(sw: Sweep, ps: seq<Player>, env: Env, file: string, stem: string)
    ensures (forall i :: 0 <= i < |ps| ==> !Owns(ps[i], stem)) ==> Migrate(sw, ps, env, file, stem) == sw
    decreases |ps|
  {
    if |ps| > 0 && forall i :: 0 <= i < |ps| ==> !Owns(ps[i], stem) {
      assert !Owns(ps[0], stem);
      assert forall i :: 0 <= i < |ps[1..]| ==> !Owns(ps[1..][i], stem) by {
        forall i | 0 <= i < |ps[1..]| ensures !Owns(ps[1..][i], stem) {
          assert ps[1..][i] == ps[i + 1];
        }
      }
      MigrateNoOwner(sw, ps[1..], env, file, stem);
    }
  }

  /** When the legacy file cannot be read, the loop changes neither map nor
      folder: the first owner's read throws and ends it. */
  lemma {:induction false} MigrateUnreadable(sw: Sweep, ps: seq<Player>, env: Env, file: string, stem: string)
    ensures Read(sw.state.disk, file).None? ==> Migrate(sw, ps, env, file, stem).state == sw.state
    decreases |ps|
  {
    if |ps| > 0 && Read(sw.state.disk, file).None? {
      MigrateUnreadable(MigrateFor(sw, ps[0], env, file, stem), ps[1..], env, file, stem);
    }
  }

  /** A loop that has thrown does nothing more. */
  lemma {:induction false} MigrateAfterThrow(sw: Sweep, ps: seq<Player>, env: Env, file: string, stem: string)
    requires sw.thrown
    ensures Migrate(sw, ps, env, file, stem) == sw
    decreases |ps|
  {
    if |ps| > 0 {
      MigrateAfterThrow(sw, ps[1..], env, file, stem);
    }
  }

  /** Players before the first owner are passed over. */
  lemma {:induction false} MigrateSkipsNonOwners(sw: Sweep, ps: seq<Player>, env: Env, file: string, stem: string, i: nat)
    requires i <= |ps|
    requires forall j :: 0 <= j < i ==> !Owns(ps[j], stem)
    ensures Migrate(sw, ps, env, file, stem) == Migrate(sw, ps[i..], env, file, stem)
    decreases i
  {
    if i > 0 {
      assert !Owns(ps[0], stem);
      assert forall j :: 0 <= j < i - 1 ==> !Owns(ps[1..][j], stem) by {
        forall j | 0 <= j < i - 1 ensures !Owns(ps[1..][j], stem) {
          assert ps[1..][j] == ps[j + 1];
        }
      }
      MigrateSkipsNonOwners(sw, ps[1..], env, file, stem, i - 1);
      assert ps[1..][i - 1..] == ps[i..];
    }
  }

  /** A stem that no known player owns is kept: the chest is loaded under
      the raw stem and its file stays where it is. */
  lemma UnmatchedLegacyKept(st: State, env: Env, file: string)
    requires IsChestFile(file) && env.parseUuid(Stem(file)).None?
    requires forall i :: 0 <= i < |env.players| ==> !Owns(env.players[i], Stem(file))
    ensures LoadFile(st, env, file).disk == st.disk
    ensures Read(st.disk, file).Some? ==>
      LoadFile(st, env, file).chests == st.chests[Stem(file) := Live(Read(st.disk, file).value)]
  {
    MigrateNoOwner(Sweep(st, false, false), env.players, env, file, Stem(file));
  }

  /** A legacy chest owned by a player is moved under the player's id and
      written to the id's file; the legacy file is deleted only when that
      write succeeds. Owners after the first do not get the chest: the
      legacy file is gone by then (or the loop has thrown). The player's id
      is assumed not to be the name of any player, so that getChest finds
      the chest just put under it. */
  lemma LegacyMigrated(st: State, env: Env, file: string, i: nat)
    requires IsChestFile(file) && env.parseUuid(Stem(file)).None?
    requires CanonicalIds(env)
    requires i < |env.players| && Owns(env.players[i], Stem(file))
    requires forall j :: 0 <= j < i ==> !Owns(env.players[j], Stem(file))
    requires Resolve(env.players, env.players[i].id) == env.players[i].id
    requires Read(st.disk, file).Some?
    ensures var id, inv, r := env.players[i].id, Read(st.disk, file).value, LoadFile(st, env, file);
      && r.chests == st.chests[id := Live(inv)]
      && r.disk.readOnly == st.disk.readOnly
      && (ChestFile(id) !in st.disk.readOnly ==> r.disk.files == st.disk.files[ChestFile(id) := Serialized(inv)] - {file})
      && (ChestFile(id) in st.disk.readOnly ==> r.disk == st.disk)
  {
    var stem, p := Stem(file), env.players[i];
    var sw0 := Sweep(st, false, false);
    assert p.id != stem;
    ChestFileInjective(p.id, stem);
    MigrateSkipsNonOwners(sw0, env.players, env, file, stem, i);
    assert env.players[i..][0] == p && env.players[i..][1..] == env.players[i + 1..];
    var sw1 := MigrateFor(sw0, p, env, file, stem);
    assert sw1.found;
    if sw1.thrown {
      MigrateAfterThrow(sw1, env.players[i + 1..], env, file, stem);
    } else {
      MigrateUnreadable(sw1, env.players[i + 1..], env, file, stem);
    }
  }

  /** The sweep invariant behind the deferred deletion: once the legacy
      file is gone, some owner's id file is writable, so the write to it
      succeeded, and it holds a chest. */
  ghost predicate DeletedAfterWrite(sw: Sweep, env: Env, file: string, stem: string) {
    file !in sw.state.disk.files ==>
      exists i :: 0 <= i < |env.players| && Owns(env.players[i], stem)
        && ChestFile(env.players[i].id) !in sw.state.disk.readOnly
        && Read(sw.state.disk, ChestFile(env.players[i].id)).Some?
  }

  lemma {:induction false} MigrateDeletesAfterWrite(sw: Sweep, ps: seq<Player>, env: Env, file: string, stem: string)
    requires CanonicalIds(env) && env.parseUuid(stem).None? && file == ChestFile(stem)
    requires forall j :: 0 <= j < |ps| ==> ps[j] in env.players
    requires DeletedAfterWrite(sw, env, file, stem)
    ensures DeletedAfterWrite(Migrate(sw, ps, env, file, stem), env, file, stem)
    decreases |ps|
  {
    if |ps| > 0 {
      var p := ps[0];
      var sw1 := MigrateFor(sw, p, env, file, stem);
      if !sw.thrown && Owns(p, stem) && Read(sw.state.disk, file).Some? && sw1.state.disk != sw.state.disk {
        var k :| 0 <= k < |env.players| && env.players[k] == p;
        assert p.id != stem;
        ChestFileInjective(p.id, stem);
        assert Read(sw1.state.disk, ChestFile(p.id)).Some?;
      }
      assert forall j :: 0 <= j < |ps[1..]| ==> ps[1..][j] in env.players by {
        forall j | 0 <= j < |ps[1..]| ensures ps[1..][j] in env.players {
          assert ps[1..][j] == ps[j + 1];
        }
      }
      MigrateDeletesAfterWrite(sw1, ps[1..], env, file, stem);
    }
  }

  /** Loading never deletes a file unless it first wrote a chest, with a
      write that succeeds, to the id file of a player who owns it. */
  lemma LegacyDeletedOnlyAfterWrite(st: State, env: Env, file: string)
    requires CanonicalIds(env)
    requires file in st.disk.files
    ensures var r := LoadFile(st, env, file);
      file !in r.disk.files ==>
        && IsChestFile(file)
        && (exists i :: 0 <= i < |env.players| && Owns(env.players[i], Stem(file))
              && ChestFile(env.players[i].id) !in st.disk.readOnly
              && Read(r.disk, ChestFile(env.players[i].id)).Some?)
  {
    if IsChestFile(file) && env.parseUuid(Stem(file)).None? {
      MigrateDeletesAfterWrite(Sweep(st, false, false), env.players, env, file, Stem(file));
    }
  }

  /** The sweep over a listing is the sweep over its parts, one after the
      other. */
  lemma {:induction false} LoadFilesAppend(st: State, env: Env, xs: seq<string>, ys: seq<string>)
    ensures LoadFiles(st, env, xs + ys) == LoadFiles(LoadFiles(st, env, xs), env, ys)
    decreases |xs|
  {
    if |xs| > 0 {
      assert (xs + ys)[0] == xs[0] && (xs + ys)[1..] == xs[1..] + ys;
      LoadFilesAppend(LoadFile(st, env, xs[0]), env, xs[1..], ys);
    } else {
      assert xs + ys == ys;
    }
  }

  /** A file that cannot be read when its turn comes is skipped, and the
      files after it load as if it were not there. */
  lemma UnreadableFileSkipped(st: State, env: Env, xs: seq<string>, bad: string, ys: seq<string>)
    requires Read(LoadFiles(st, env, xs).disk, bad).None?
    ensures LoadFiles(st, env, xs + [bad] + ys) == LoadFiles(st, env, xs + ys)
  {
    LoadFilesAppend(st, env, xs + [bad], ys);
    LoadFilesAppend(st, env, xs, [bad]);
    LoadFilesAppend(st, env, xs, ys);
  }
}
