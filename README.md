# NoHeavyGear policy, modelled in Dafny

NoHeavyGear is a Rust (Oxide) server plugin that keeps players in heavy armour
off light vehicles. It answers two host hooks:

- **CanMountEntity**: a player without the `NoHeavyGear.bypass` permission who
  tries to get onto a monitored vehicle while wearing blocked items is refused
  and told which items to take off. A vehicle is monitored when one of the
  configured prefab names occurs inside its short prefab name. With
  `RequireAllItems` the refusal needs at least as many matching worn items as
  the blocked list has entries; otherwise one is enough.
- **CanWearItem**: a mounted player on a monitored vehicle may not put on a
  blocked item. The refusal is announced at most once every 2 time units per
  player; the plugin remembers the time of each player's last warning in a
  dictionary, which unloading clears.

Loading the configuration removes duplicate entries from both lists and falls
back to the built-in defaults when the stored document is missing or unusable.

Files, one module each:

- `wrappers.dfy`: `Option`, standing for a reference that may be null.
- `text.dfy`: ordinal substring search (`string.Contains`), `string.Join`, and
  splitting at line breaks as the inverse of joining with `"\n"`.
- `config.dfy`: the configuration record, its defaults, `Distinct` and what
  loading yields.
- `policy.dfy`: vehicle matching, the worn-item filter (as a function and as
  the loop the plugin runs), the mount decision and the equip decision with its
  warning times, with the lemmas about them.
- `plugin.dfy`: the plugin object, a class whose `config` and `lastWarningTime`
  fields its methods update.
- `scenarios.dfy`: worked examples.

Host facts are plain inputs: the bypass permission is a boolean, a player is
its id, its worn items in slot order (shortname and English display name), its
`isMounted` flag and what `GetMounted()` returns; a mountable is the vehicle it
belongs to, if any. A hook's `null` is `Allow` and its `false` is `Deny`,
carrying the chat message (its language key and argument) when one is sent.
Times are integers.

## Model

| member | source | states |
|---|---|---|
| Config.DefaultCleaned | NoHeavyGear.cs:18-44 | the built-in defaults have both lists present and free of duplicates, and `RequireAllItems` is false |
| Config.DefaultConfiguration | NoHeavyGear.cs:18-44 | `new Configuration()`: version "1.0.3", the six vehicle prefab names and three plate-armour shortnames in source order, `RequireAllItems` false; `DefaultCleaned` states that it is already clean |
| Config.Distinct | NoHeavyGear.cs:59-60 | `Distinct().ToList()`; its contract is stated by `DistinctSameElements`, `DistinctNoDuplicates`, `DistinctOfNoDuplicates`, `DistinctIdempotent` and `DistinctKeepsFirstOccurrenceOrder` |
| Config.DistinctSameElements | NoHeavyGear.cs:59-60 | `Distinct` keeps exactly the elements of its input and never makes the list longer |
| Config.DistinctNoDuplicates | NoHeavyGear.cs:59-60 | the cleaned list has no duplicates |
| Config.DistinctOfNoDuplicates | NoHeavyGear.cs:59-60 | a list without duplicates is returned unchanged |
| Config.DistinctIdempotent | NoHeavyGear.cs:59-60 | cleaning a cleaned list changes nothing |
| Config.DistinctKeepsFirstOccurrenceOrder | NoHeavyGear.cs:59-60 | the survivors appear in the order of their first occurrences in the input |
| Config.LoadedConfig | NoHeavyGear.cs:46-74 | a readable document with both lists present keeps its version and mode and has its lists deduplicated with the same elements; anything else (null document, read failure, a null list making `Distinct` throw) gives the defaults; either way the result is cleaned |
| Config.LoadedConfigIdempotent | NoHeavyGear.cs:50-61 | loading again what loading produced yields the same configuration |
| Text.Contains | NoHeavyGear.cs:203 | `hay.Contains(needle)` holds exactly when `needle` occurs at some position of `hay` (the empty string occurs everywhere) |
| Text.Join | NoHeavyGear.cs:147 | `string.Join(sep, xs)`: the empty list gives "" and a single element is returned as it is; `SplitJoinLines` states that joining with "\n" loses nothing |
| Text.SplitJoinLines | NoHeavyGear.cs:147 | joining a non-empty list of line-break-free strings with "\n" and splitting at line breaks gives the list back |
| Policy.IsAffectedVehicle | NoHeavyGear.cs:197-204 | a vehicle is affected exactly when it is present, the configuration and its prefab list are non-null and some configured prefab is a substring of the vehicle's short prefab name |
| Policy.GetWornRestrictedItems | NoHeavyGear.cs:206-222 | the loop over the wear container returns the blocked items' display names, as `RestrictedNames` describes |
| Policy.Restricted | NoHeavyGear.cs:213-219 | the filter over the wear slots; its contract is stated by `RestrictedAppend`, `RestrictedContents`, `RestrictedCount` and `CountRuleIsWearingAll` |
| Policy.RestrictedNames | NoHeavyGear.cs:206-222 | empty when the configuration or its blocked list is null; otherwise non-empty exactly when some worn item's shortname is blocked; never longer than the wear container |
| Policy.RestrictedAppend | NoHeavyGear.cs:213-219 | the filter distributes over concatenation of wear lists, so names come out in slot order |
| Policy.RestrictedContents | NoHeavyGear.cs:213-219 | a name is in the list exactly when it is the display name of a worn item with a blocked shortname; the list is empty exactly when no worn item is blocked |
| Policy.RestrictedCount | NoHeavyGear.cs:213-219 | for every wear list, the number of names returned is the number of wear slots holding an item whose shortname is blocked, which is the count compared at line 144 |
| Policy.CountRuleIsWearingAll | NoHeavyGear.cs:144 | for a duplicate-free blocked list and worn items of distinct shortnames, "restricted count at least the blocked-list count" holds exactly when every blocked item is worn |
| Policy.CanMountEntity | NoHeavyGear.cs:125-150 | refuses exactly when player and mountable are present, there is no bypass, the vehicle is monitored, a blocked item is worn and, under `RequireAllItems`, the restricted count reaches the blocked-list count; a refusal always carries the names joined by "\n"; no warning times are involved |
| Policy.UnblockedItemChangesNothing | NoHeavyGear.cs:213-219 | for every configuration, player, mountable and bypass flag, wearing one more item whose shortname is not blocked leaves the mount decision and its message unchanged |
| Policy.MountBypassAllows | NoHeavyGear.cs:130-131 | with the bypass permission the mount is always allowed |
| Policy.MountRequireAll | NoHeavyGear.cs:141-145 | under `RequireAllItems` with a cleaned configuration and distinct worn shortnames, the mount is refused exactly when the vehicle is monitored and every entry of a non-empty blocked list is worn |
| Policy.MountRequireAny | NoHeavyGear.cs:137-149 | without `RequireAllItems`, one worn blocked item on a monitored vehicle is refused |
| Policy.MountMessageListsItems | NoHeavyGear.cs:147-148 | the refusal message, split at line breaks, is exactly the blocked worn items' display names in slot order (when those names have no line breaks) |
| Policy.EquipStep | NoHeavyGear.cs:152-191 | refuses exactly when player and item are present, there is no bypass, the item is blocked, the player is mounted on a mountable of a monitored vehicle; a refusal is announced and records `now` for that player exactly when no time is recorded or the recorded one is at least 2 old, otherwise it is silent and changes nothing; an allowed equip changes nothing |
| Policy.EquipBypassAllows | NoHeavyGear.cs:161-162 | with the bypass permission the equip is allowed and the warning times are untouched |
| Policy.EquipTouchesOnlyOwnEntry | NoHeavyGear.cs:182-188 | other players' warning times are unchanged, no entry is removed, and an entry only moves forward, by at least the cooldown |
| Policy.EquipWarningCooldown | NoHeavyGear.cs:181-190 | starting with no recorded warning time for the player, a refused equip is announced, a second one at the same time or less than 2 later is silent, a third at least 2 after the first is announced again |
| Plugin.NoHeavyGear.constructor | NoHeavyGear.cs:14-15 | the plugin starts with no configuration and no warning times |
| Plugin.NoHeavyGear.LoadConfig | NoHeavyGear.cs:46-68 | the configuration becomes what `LoadedConfig` gives for the document read; warning times are kept |
| Plugin.NoHeavyGear.Unload | NoHeavyGear.cs:78-81 | the warning times are emptied; the configuration stays |
| Plugin.NoHeavyGear.CanWearItem | NoHeavyGear.cs:152-191 | the equip hook on the object: returns `EquipStep`'s decision and leaves `lastWarningTime` as `EquipStep` says, keeping the configuration |
| Scenarios.SuffixedPrefabIsAffected | NoHeavyGear.cs:197-204 | with the defaults, `"rowboat_skin2"` is affected through the entry `"rowboat"` |
| Scenarios.ContainmentHasADirection | NoHeavyGear.cs:203 | a vehicle whose short prefab name is shorter than every configured name is never affected; in particular the configured `"rowboat_skin2"` does not match the vehicle `"rowboat"` |
| Scenarios.HelmetBlocksMinicopter | NoHeavyGear.cs:125-150 | with the defaults, a plate helmet keeps a player off a minicopter, and the message names "Heavy Plate Helmet" |
| Scenarios.UnlistedItemDoesNotBlock | NoHeavyGear.cs:206-222 | with only the plate helmet blocked, a player wearing just a plate jacket may get onto a minicopter |
| Scenarios.RequireAllNeedsEveryItem | NoHeavyGear.cs:144-145 | under `RequireAllItems` with blocked `a`, `b`: wearing `a` alone is allowed, wearing both is refused with "A\nB" |
| Scenarios.RequireAllCountsWornItems | NoHeavyGear.cs:144 | the rule counts worn items, not distinct shortnames: two worn `a` items block although `b` is not worn |

## Left out

- Host plumbing: hook dispatch, `GetComponent`/`GetComponentInParent`, `GetMounted`, the wear container. Their results are parameters. A null inventory and an inventory without an owning player both appear as an absent player.
- The permission registry (`RegisterPermission`, `UserHasPermission`): the bypass permission is a boolean parameter.
- Reading and writing the configuration file (`ReadObject`, `WriteObject`, `SaveConfig`) and the exception handling around it: the document read is an `Option<Configuration>` parameter, `None` for a null result or a read failure. `SaveConfig` after falling back is not modelled.
- Localised text and delivery (`RegisterMessages`, `Lang`, `string.Format`, `ChatMessage`) and console output (`Puts`, `PrintError` in `Init`): a message is returned as its key and the argument it would be formatted with.
- `Init`: it only registers the permission and logs.
- The `targetSlot` argument of `CanWearItem`: the plugin never reads it.
- Plugin.NoHeavyGear.CanWearItem: requires a loaded configuration once player and item are present and there is no bypass. The plugin reads `config.BlockedItems` there without a null check, so without one it throws instead of answering.
- Policy.EquipStep: requires a loaded configuration on the same path, for the same reason as `CanWearItem`.
- Policy.EquipTouchesOnlyOwnEntry: carries the same requirement as `EquipStep`, whose results it describes.
- Policy.IsAffectedVehicle: entries of the vehicle list are never null. A JSON `null` entry survives `Distinct()`, and `string.Contains(null)` then throws `ArgumentNullException` whenever no earlier entry matched; that exception is not modelled.
- Policy.EquipStep: times are integers, not the single-precision seconds of `Time.realtimeSinceStartup`; rounding of the float subtraction is not modelled.
- Vehicle matching is ordinal and case-sensitive as `string.Contains` is; a null short prefab name is not modelled.
