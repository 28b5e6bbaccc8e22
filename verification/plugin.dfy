/** The parts of AlphaChestPlugin that drive the store: what happens to a
    player's chest on death, and the autosave set up when the plugin is
    enabled. */
module Plugin {
  import opened Wrappers
  import opened Inventory
  import opened Disk
  import opened Players
  import opened ChestStore

  /** The death-related settings of config.yml. */
  datatype Settings = Settings(clearOnDeath: bool, dropOnDeath: bool)

  /** The player's alphachest.keepOnDeath, alphachest.dropOnDeath and
      alphachest.clearOnDeath permissions. */
  datatype Permissions = Permissions(keepOnDeath: bool, dropOnDeath: bool, clearOnDeath: bool)

  /** Whether the chest's contents go to the death drops, and whether the
      chest is removed. */
  datatype Decision = Decision(drop: bool, clear: bool)

  /** The decision of onPlayerDeath: the settings give the default, and the
      permissions override it, keepOnDeath first, then dropOnDeath, then
      clearOnDeath. */
  function DeathDecision(settings: Settings, perms: Permissions): (d: Decision)
    ensures d.drop <==> !perms.keepOnDeath && (perms.dropOnDeath || (!perms.clearOnDeath && settings.dropOnDeath))
    ensures d.clear <==>
      (!perms.keepOnDeath && (perms.dropOnDeath || perms.clearOnDeath || settings.dropOnDeath || settings.clearOnDeath))
    ensures d.drop ==> d.clear
  {
    var byConfig := Decision(settings.dropOnDeath, settings.dropOnDeath || settings.clearOnDeath);
    if perms.keepOnDeath then Decision(false, false)
    else if perms.dropOnDeath then Decision(true, true)
    else if perms.clearOnDeath then Decision(false, true)
    else byConfig
  }

  /** The chest a player would be handed right now: the live one, or a fresh
      empty one. */
  function HeldChest(chests: Chests, key: string): Inventory {
    if IsLive(chests, key) then chests[key].inv else EmptyChest()
  }

  /** onPlayerDeath: on a drop, every slot of the player's chest, empty ones
      included, is appended to the drops in slot order; on a clear the
      chest is then tombstoned. Because the chest is read before it is
      removed, a drop never loses what the chest held. */
  function OnPlayerDeath(chests: Chests, players: seq<Player>, settings: Settings, perms: Permissions,
                         playerId: string, drops: seq<Slot>): (r: (Chests, seq<Slot>))
    ensures var d, key := DeathDecision(settings, perms), Resolve(players, playerId);
      && (d.drop ==> r.1 == drops + HeldChest(chests, key))
      && (!d.drop ==> r.1 == drops)
      && (d.clear ==> r.0 == chests[key := Tombstone])
      && (!d.clear ==> r.0 == chests)
  {
    var d := DeathDecision(settings, perms);
    var (c1, drops1) :=
      if d.drop then
        var (c, chest) := GetChest(chests, players, playerId);
        (c, drops + chest)
      else (chests, drops);
    var c2 := if d.clear then RemoveChest(c1, players, playerId) else c1;
    (c2, drops1)
  }

  /** With no death permission at all, dropping needs dropOnDeath and the
      chest is cleared when either setting is on; keepOnDeath beats every
      other permission and setting. */
  lemma DecisionDefaults(settings: Settings, perms: Permissions)
    ensures !perms.keepOnDeath && !perms.dropOnDeath && !perms.clearOnDeath ==>
      DeathDecision(settings, perms) == Decision(settings.dropOnDeath, settings.dropOnDeath || settings.clearOnDeath)
    ensures perms.keepOnDeath ==> DeathDecision(settings, perms) == Decision(false, false)
    ensures !perms.keepOnDeath && perms.dropOnDeath ==> DeathDecision(settings, perms) == Decision(true, true)
    ensures !perms.keepOnDeath && !perms.dropOnDeath && perms.clearOnDeath ==>
      DeathDecision(settings, perms) == Decision(false, true)
  {
  }

  /** A 32-bit Java int. */
  newtype int32 = x: int | -0x8000_0000 <= x < 0x8000_0000

  /** A 64-bit Java long. */
  newtype int64 = x: int | -0x8000_0000_0000_0000 <= x < 0x8000_0000_0000_0000

  /** The result of a Java int operation whose exact value is `x`: two's
      complement wrap-around. */
  function WrapInt32(x: int): (r: int32)
    ensures -0x8000_0000 <= x < 0x8000_0000 ==> r as int == x
    ensures (r as int - x) % 0x1_0000_0000 == 0
  {
    ((x + 0x8000_0000) % 0x1_0000_0000 - 0x8000_0000) as int32
  }

  /** Server ticks per minute. */
  const TicksPerMinute: int := 1200

  /** onEnable's `getConfig().getInt("autosave") * 1200`, an int product. */
  function AutosaveTicksAsWritten(minutes: int32): (ticks: int32)
    ensures ticks as int == minutes as int * TicksPerMinute <==> -1789569 <= minutes as int <= 1789569
  {
    WrapInt32(minutes as int * TicksPerMinute)
  }

  /** The autosave period computed in long arithmetic, as the scheduler
      takes it: exact for every int setting. */
  function AutosaveTicks(minutes: int32): (ticks: int64)
    ensures ticks > 0 <==> minutes > 0
    ensures minutes > 0 ==> ticks as int / TicksPerMinute == minutes as int
  {
    (minutes as int * TicksPerMinute) as int64
  }

  /** Beyond 1789569 minutes in either direction, the int product wraps:
      1789570 minutes gives a negative period, which switches autosave
      off; 3579140 minutes gives a period of 704 ticks, about 35 seconds;
      and -1789570 minutes gives a positive period, which switches it on. */
  lemma AutosaveOverflow()
    ensures AutosaveTicksAsWritten(1789570) < 0
    ensures AutosaveTicksAsWritten(3579140) == 704
    ensures AutosaveTicksAsWritten(-1789570) == 2147483296
    ensures AutosavePeriodAsWritten(1789570).None? && AutosavePeriod(1789570).Some?
    ensures AutosavePeriodAsWritten(-1789570).Some? && AutosavePeriod(-1789570).None?
  {
  }

  /** onEnable as written: the autosave task is scheduled only when the
      wrapped int product is positive, and repeats with that product as
      its period. */
  function AutosavePeriodAsWritten(minutes: int32): (period: Option<int32>)
    ensures period.Some? <==> AutosaveTicksAsWritten(minutes) > 0
    ensures period.Some? ==> period.value > 0 && period.value == AutosaveTicksAsWritten(minutes)
    ensures -1789569 <= minutes as int <= 1789569 ==> (period.Some? <==> minutes > 0)
  {
    var ticks := AutosaveTicksAsWritten(minutes);
    if ticks > 0 then Some(ticks) else None
  }

  /** The corrected scheduling rule: the autosave task is scheduled for
      every positive setting, repeating with the exact period. */
  function AutosavePeriod(minutes: int32): (period: Option<int64>)
    ensures period.Some? <==> minutes > 0
    ensures period.Some? ==> period.value as int == minutes as int * TicksPerMinute
  {
    var ticks := AutosaveTicks(minutes);
    if ticks > 0 then Some(ticks) else None
  }

  /** One run of the autosave task: save everything, and log the count only
      when something was written and silentAutosave is off. */
  method AutosaveRun(chests: Chests, disk: Disk, silent: bool)
    returns (chests': Chests, disk': Disk, saved: nat, logged: bool)
    ensures Flushed(chests, chests') && SaveEffect(chests, disk, disk')
    ensures saved == |WrittenKeys(chests, disk)|
    ensures logged <==> !silent && WrittenKeys(chests, disk) != {}
  {
    chests', disk', saved := Save(chests, disk);
    logged := saved > 0 && !silent;
  }
}
