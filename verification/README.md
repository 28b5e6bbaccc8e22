# AlphaChest virtual-chest store, modelled in Dafny

AlphaChest gives every player one persistent "virtual chest" of 54 slots.
`VirtualChestManager` keeps the chests in a map from key to chest, where a
key is a player's UUID string or, for a chest that was never migrated, a
raw display name. A removed chest is not deleted at once: its key maps to a
tombstone (`null` in Java), and the next save deletes its file and drops
the entry. At start-up a load sweep reads every `<key>.chest.yml` file of
the chest folder. Files named after a display name are migrated to a file
named after the owning player's UUID. `AlphaChestPlugin` decides on a
player's death whether the chest's contents are dropped and whether the
chest is removed, and schedules the periodic autosave.

The model is functional. The map holds `Live(inventory) | Tombstone`
entries, and every operation is a pure transition:

- `wrappers.dfy`: `Option`.
- `inventory.dfy`: slots, item stacks and the empty 6 x 9 chest.
- `text.dfy`: case folding and suffix tests on strings.
- `disk.dfy`: the chest folder. It is a map from file name to contents,
  where the contents are a serialized chest or unparsable bytes. Writes to
  a given set of read-only names fail.
- `players.dfy`: the player list and key resolution (`checkForUUID`).
- `store.dfy`: `getChest`, `removeChest`, `getChestCount` and `save`.
- `load.dfy`: the load sweep and the legacy migration, as folds over the
  folder listing and over the player list.
- `plugin.dfy`: the death decision and its effect on the chest and the
  drops, and the autosave period and log rule.

The outside world appears as parameters:
- the Bukkit player list is a sequence of (name, UUID string) pairs, in
  enumeration order;
- `UUID.fromString(...).toString()` is a function from string to optional
  canonical string;
- the folder listing is a sequence of file names, in listing order;
- `hasPermission` and the configuration values are booleans and numbers.

Behaviour the model follows as the code has it:
- The migration loop over the players has no `break`. Only the first owner of a legacy stem can receive the chest, though. If that owner's write fails, the loop has thrown and visits no further player. If it succeeds, the legacy file is gone, so the next owner's read of it fails and ends the loop.
- When the write of the migrated file fails, the chest has already been put under the player's UUID. It stays loaded there, and the legacy file stays on disk.
- A UUID-named file is loaded under the canonical string form of the parsed UUID, which need not be the file's stem.
- Legacy stems are compared with the lower-cased player name exactly. Key resolution compares ignoring case on both sides.

## Model

| member | source | states |
|---|---|---|
| `Players.Resolve` | src/main/java/io/ashford/bukkit/alphachest/VirtualChestManager.java:153-163 | If no player's name equals the input ignoring case, the input comes back unchanged. Otherwise the result is the id of a player whose name matches, and no earlier player in enumeration order matches. |
| `Players.ResolveIgnoresCase` | src/main/java/io/ashford/bukkit/alphachest/VirtualChestManager.java:156-160 | When some player's name matches a string, every spelling of that string that differs only in case resolves to the same key. |
| `Text.UpperNeverLowered` | src/main/java/io/ashford/bukkit/alphachest/VirtualChestManager.java:65 | A legacy stem that contains an upper-case letter never equals a lower-cased player name, so such a file is never migrated. |
| `Inventory.EmptyChest` | src/main/java/io/ashford/bukkit/alphachest/VirtualChestManager.java:146 | A fresh chest has 6 * 9 = 54 slots, and all of them are empty. |
| `Disk.Stem` | src/main/java/io/ashford/bukkit/alphachest/VirtualChestManager.java:59-60 | Stripping the `.chest.yml` suffix gives the key whose chest file is exactly that file. |
| `Disk.ChestFileInjective` | src/main/java/io/ashford/bukkit/alphachest/VirtualChestManager.java:115-116 | Two different keys never share a chest file. |
| `Disk.Write` | src/main/java/io/ashford/bukkit/alphachest/VirtualChestManager.java:125 | A write fails exactly on a read-only name, and a failed write changes nothing. A successful write reads back as the chest written and leaves every other file as it was. |
| `ChestStore.GetChest` | src/main/java/io/ashford/bukkit/alphachest/VirtualChestManager.java:141-151 | If the resolved key is live, the stored chest is returned and the map is unchanged. Otherwise an empty 54-slot chest is stored under that key and returned. In both cases the key ends up live with the returned chest, and no other key changes. |
| `ChestStore.GetChestTwice` | src/main/java/io/ashford/bukkit/alphachest/VirtualChestManager.java:141-151 | A second get of the same input returns the same chest and leaves the map as the first get left it. |
| `ChestStore.RemoveChest` | src/main/java/io/ashford/bukkit/alphachest/VirtualChestManager.java:168-172 | Only the resolved key becomes a tombstone, whether or not it was present. Every other entry is unchanged. The operation takes no folder, so no file changes before the next save. |
| `ChestStore.RemoveThenGet` | src/main/java/io/ashford/bukkit/alphachest/VirtualChestManager.java:141-172 | A get after a remove returns a fresh empty chest and never the removed contents. |
| `ChestStore.ChestCount` | src/main/java/io/ashford/bukkit/alphachest/VirtualChestManager.java:179-181 | The count is the number of live entries plus the number of tombstones. |
| `ChestStore.CountAfterRemove` | src/main/java/io/ashford/bukkit/alphachest/VirtualChestManager.java:168-181 | A remove never lowers the count. It adds one when the key was absent. |
| `ChestStore.CountAfterFlush` | src/main/java/io/ashford/bukkit/alphachest/VirtualChestManager.java:117-121 | After the tombstones are dropped, the count equals the number of live chests. |
| `ChestStore.Save` | src/main/java/io/ashford/bukkit/alphachest/VirtualChestManager.java:103-136 | Afterwards no tombstone remains. Each live entry stays, unchanged, even if its write fails. Each tombstoned key's file is gone. Each writable live entry's file holds its chest. Any other file is untouched. The result is the number of live entries whose write succeeded, so it never exceeds the number of live entries. |
| `ChestStore.SaveTwice` | src/main/java/io/ashford/bukkit/alphachest/VirtualChestManager.java:103-136 | A second save right after a first leaves the map and the folder as they were and writes the same set of chests. |
| `ChestLoad.MigrateFor` | src/main/java/io/ashford/bukkit/alphachest/VirtualChestManager.java:65-81 | One pass of the migration loop for one player never makes a tombstone and never clears the found flag. Once an exception has been thrown, a pass does nothing. |
| `ChestLoad.Migrate` | src/main/java/io/ashford/bukkit/alphachest/VirtualChestManager.java:62-82 | The loop over all players, with no break, never makes a tombstone and never clears the found flag. |
| `ChestLoad.LoadFile` | src/main/java/io/ashford/bukkit/alphachest/VirtualChestManager.java:46-93 | A file without the `.chest.yml` suffix is ignored. A file that cannot be read changes nothing. A readable file whose stem parses as a UUID is loaded under the canonical UUID string, and the folder is untouched. |
| `ChestLoad.LoadFiles` | src/main/java/io/ashford/bukkit/alphachest/VirtualChestManager.java:46-93 | The sweep over the listing never makes a tombstone. |
| `ChestLoad.Load` | src/main/java/io/ashford/bukkit/alphachest/VirtualChestManager.java:38-96 | Every chest that load yields is live. |
| `ChestLoad.MigrateNoOwner` | src/main/java/io/ashford/bukkit/alphachest/VirtualChestManager.java:62-82 | A loop in which no player owns the stem changes nothing. |
| `ChestLoad.MigrateUnreadable` | src/main/java/io/ashford/bukkit/alphachest/VirtualChestManager.java:65-68 | When the legacy file cannot be read, the loop changes neither the map nor the folder. |
| `ChestLoad.MigrateAfterThrow` | src/main/java/io/ashford/bukkit/alphachest/VirtualChestManager.java:62-89 | Once the loop has thrown, nothing more happens. |
| `ChestLoad.MigrateSkipsNonOwners` | src/main/java/io/ashford/bukkit/alphachest/VirtualChestManager.java:62-65 | Players before the first owner are passed over. |
| `ChestLoad.UnmatchedLegacyKept` | src/main/java/io/ashford/bukkit/alphachest/VirtualChestManager.java:83-87 | If no player owns a legacy stem, the chest is loaded under the raw stem and the folder is left as it was. |
| `ChestLoad.LegacyMigrated` | src/main/java/io/ashford/bukkit/alphachest/VirtualChestManager.java:62-81 | The first owner receives the chest under its id. If the write succeeds, the id's file holds the chest and the legacy file is deleted. If the write fails, the folder is unchanged. Later owners get nothing. |
| `ChestLoad.LegacyDeletedOnlyAfterWrite` | src/main/java/io/ashford/bukkit/alphachest/VirtualChestManager.java:69-75 | Loading a file deletes it only if the id file of a player who owns the stem is writable, so the write to it succeeds, and that file holds a chest afterwards. Which chest it holds is stated by `ChestLoad.LegacyMigrated`, under that lemma's assumption. |
| `ChestLoad.MigrateDeletesAfterWrite` | src/main/java/io/ashford/bukkit/alphachest/VirtualChestManager.java:62-82 | The loop keeps this invariant: once the legacy file is gone, some owner's id file is writable and holds a chest. |
| `ChestLoad.LoadFilesAppend` | src/main/java/io/ashford/bukkit/alphachest/VirtualChestManager.java:46-93 | The sweep over a listing equals the sweep over its first part followed by the sweep over the rest. |
| `ChestLoad.UnreadableFileSkipped` | src/main/java/io/ashford/bukkit/alphachest/VirtualChestManager.java:89-92 | A file that cannot be read when its turn comes is skipped. The files after it load as if it were absent. |
| `Plugin.DeathDecision` | src/main/java/io/ashford/bukkit/alphachest/AlphaChestPlugin.java:83-95 | Drop holds exactly when there is no keepOnDeath and either the dropOnDeath permission is present or (there is no clearOnDeath permission and the dropOnDeath setting is on). Clear holds exactly when there is no keepOnDeath and some death permission or setting is on. Drop implies clear. |
| `Plugin.DecisionDefaults` | src/main/java/io/ashford/bukkit/alphachest/AlphaChestPlugin.java:83-95 | With no death permission, drop = dropOnDeath and clear = dropOnDeath or clearOnDeath. The permissions take precedence in the order keepOnDeath, then dropOnDeath, then clearOnDeath. |
| `Plugin.OnPlayerDeath` | src/main/java/io/ashford/bukkit/alphachest/AlphaChestPlugin.java:97-106 | On a drop, the drops gain every slot of the chest the player holds, in order, after the existing drops. If there was no live chest, these are 54 empty slots. On a clear, the player's key ends as a tombstone. Otherwise the map and the drops are unchanged. |
| `Plugin.WrapInt32` | src/main/java/io/ashford/bukkit/alphachest/AlphaChestPlugin.java:53 | An int result equals the exact value modulo 2^32, and it equals the exact value when that fits. |
| `Plugin.AutosaveTicksAsWritten` | src/main/java/io/ashford/bukkit/alphachest/AlphaChestPlugin.java:53 | The int product equals minutes * 1200 exactly when the minutes lie between -1789569 and 1789569. |
| `Plugin.AutosaveOverflow` | src/main/java/io/ashford/bukkit/alphachest/AlphaChestPlugin.java:53-54 | 1789570 minutes gives a negative period, so the code as written schedules nothing while the corrected rule does. 3579140 minutes gives a period of 704 ticks. -1789570 minutes gives a positive period of 2147483296 ticks, so the code as written schedules a task while the corrected rule does not. |
| `Plugin.AutosaveTicks` | src/main/java/io/ashford/bukkit/alphachest/AlphaChestPlugin.java:53-54 | The corrected computation, in long arithmetic: the period is positive exactly when the minutes are, and it is 1200 ticks per minute. |
| `Plugin.AutosavePeriodAsWritten` | src/main/java/io/ashford/bukkit/alphachest/AlphaChestPlugin.java:53-66 | As written, autosave is scheduled exactly when the wrapped int product `autosave * 1200` is positive, with that product as the period. For settings between -1789569 and 1789569 this means exactly for a positive setting. |
| `Plugin.AutosavePeriod` | src/main/java/io/ashford/bukkit/alphachest/AlphaChestPlugin.java:53-66 | The corrected rule, not the code as written: autosave is scheduled exactly for a positive setting, with a period of minutes * 1200 ticks computed in long arithmetic. |
| `Plugin.AutosaveRun` | src/main/java/io/ashford/bukkit/alphachest/AlphaChestPlugin.java:56-64 | An autosave run saves as `save` does. It logs exactly when silentAutosave is off and at least one chest was written. |

## Left out

- Bukkit itself (`getOfflinePlayers`, `createInventory`, `hasPermission`, `PlayerDeathEvent`, the scheduler): these become parameters, booleans and constants.
- `InventoryIO`, the YAML codec, is not part of this model. A file holds a serialized chest, which reads back as written, or content that fails to parse.
- Exceptions from the codec other than a failed read or write are not modelled. Among them is an `IllegalArgumentException` raised while reading a UUID-named file, which the source would route into the legacy branch.
- Reading a file that is missing, for instance a legacy file already deleted by the migration, is assumed to fail the way `InventoryIO.loadFromYaml` fails on unparsable content: it throws, and the handling of that file ends.
- `Disk.Write`: writes are assumed atomic, so a failed `saveToYaml` leaves the old file intact. They are also assumed to fail deterministically per file name: a name fails on every attempt or on none. `InventoryIO` does not show either property. The unchanged-file case of a failed write in `ChestStore.Save`, the unchanged folder after a failed write in `ChestLoad.LegacyMigrated`, and the equal counts of `ChestStore.SaveTwice` rest on these assumptions.
- `File.delete` is modelled as always succeeding; the source ignores its result. `mkdirs`, file-system errors other than unwritable names, and the listing's failure modes are not modelled.
- The folder listing is a snapshot given as a sequence. A file written during the sweep is visited only if it was already listed.
- `String.toLowerCase` and `equalsIgnoreCase` are modelled on ASCII letters only. Non-ASCII case mapping and locale rules (such as Turkish dotless i) are not modelled.
- A player with a null name, whose name lookup would throw in `checkForUUID` and in the migration loop, is not modelled: names are strings.
- Java object identity of chests: callers mutate the returned inventory in place. The model returns chest values, and edits to a chest are not part of it.
- `ChestStore.ChestCount` and the save count are unbounded naturals. The Java `int` cannot overflow at realistic map sizes.
- `ChestLoad.LegacyMigrated` assumes that the owner's UUID string is not itself some player's name. Without that, `getChest` in the migration may resolve elsewhere. `ChestLoad.LegacyDeletedOnlyAfterWrite` holds without that assumption.
- `onDisable` (a plain save whose count is logged), the log text, config-file loading, and the registration of commands and events are left out. The command classes are not part of this model.
- HashMap iteration order in `save` is left unspecified; the save loop picks any remaining key. The outcome does not depend on the order only because distinct keys name distinct files (see the `Disk.ChestFileInjective` line).
- `Disk.ChestFileInjective`: file names are compared as exact, case-sensitive, flat strings, so distinct keys never share a file. A case-insensitive file system, or path forms such as `./steve`, can make two keys share one file. For example, the unknown names "Steve" and "steve" stay two keys, because only known players' names fold case. Then the result of `save` depends on HashMap order: a tombstone's deletion after the other key's write leaves no file. The order independence of `ChestStore.Save` and the result of `ChestStore.SaveTwice` rest on this assumption.

## Findings

| source | as written | input that shows it | evidently intended | confidence | as-written member | corrected member |
|---|---|---|---|---|---|---|
| src/main/java/io/ashford/bukkit/alphachest/AlphaChestPlugin.java:53-54 | `getInt("autosave") * 1200` is an `int` product, so it wraps for settings outside -1789569 to 1789569 minutes | autosave = 1789570 gives a negative period, so autosave is never scheduled; autosave = 3579140 gives 704 ticks, so it autosaves about every 35 seconds; autosave = -1789570 gives 2147483296 ticks, so a negative setting schedules autosave | the period is 1200 ticks per configured minute, and autosave is scheduled exactly for a positive setting (the scheduler takes a `long`) | high for the arithmetic; not executed | `Plugin.AutosavePeriodAsWritten`, `Plugin.AutosaveOverflow` | `Plugin.AutosavePeriod`, `Plugin.AutosaveTicks` |
