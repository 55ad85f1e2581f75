/**
 * The plugin object: the configuration it loaded and the per-player times of
 * the last equip warning, a dictionary the equip hook updates in place and
 * unloading clears.
 */
module Plugin {
  import opened Wrappers
  import opened Config
  import opened Policy

  class NoHeavyGear {
    /** `null` until the configuration is loaded. */
    var config: Option<Configuration>
    /** userID to the time of the last equip warning sent to that player. */
    var lastWarningTime: map<nat, int>

    /** After loading, the configuration is present, deduplicated and non-null throughout. */
    ghost predicate Valid()
      reads this
    {
      config.Some? ==> Cleaned(config.value)
    }

    constructor ()
      ensures Valid()
      ensures config == None && lastWarningTime == map[]
    {
      config := None;
      lastWarningTime := map[];
    }

    /**
     * `read` is what the stored document deserialised to (`None` when it was
     * null or could not be read). Warning times are kept.
     */
    method LoadConfig(read: Option<Configuration>)
      modifies this
      ensures Valid()
      ensures config == Some(LoadedConfig(read))
      ensures lastWarningTime == old(lastWarningTime)
    {
      if read.Some? && read.value.vehiclesPrefabs.Some? && read.value.blockedItems.Some? {
        var c := read.value;
        config := Some(c.(vehiclesPrefabs := Some(Distinct(c.vehiclesPrefabs.value)),
                          blockedItems := Some(Distinct(c.blockedItems.value))));
        DistinctNoDuplicates(c.vehiclesPrefabs.value);
        DistinctNoDuplicates(c.blockedItems.value);
      } else {
        config := Some(DefaultConfiguration);
      }
    }

    /** Forgets every warning time; the configuration stays. */
    method Unload()
      requires Valid()
      modifies this
      ensures Valid()
      ensures lastWarningTime == map[]
      ensures config == old(config)
    {
      lastWarningTime := map[];
    }

    /**
     * The equip hook. `player` is the inventory's owner (`None` when the
     * inventory or its owner is null) and `now` the current time. Refuses
     * or allows as `EquipStep` says and records the warning time it says.
     */
    method CanWearItem(player: Option<Player>, item: Option<Item>, hasBypass: bool, now: int) returns (d: Decision)
      requires Valid()
      requires player.Some? && item.Some? && !hasBypass ==> config.Some?
      modifies this
      ensures Valid() && config == old(config)
      ensures EquipOutcome(d, lastWarningTime) ==
        EquipStep(config, player, item, hasBypass, now, old(lastWarningTime))
    {
      if item.None? || player.None? {
        return Allow;
      }
      if hasBypass {
        return Allow;
      }
      if item.value.shortname !in config.value.blockedItems.value {
        return Allow;
      }
      var p := player.value;
      if !p.isMounted {
        return Allow;
      }
      if p.mounted.None? {
        return Allow;
      }
      var vehicle := p.mounted.value.vehicle;
      if vehicle.None? {
        return Allow;
      }
      if !IsAffectedVehicle(config, vehicle) {
        return Allow;
      }
      if p.userID in lastWarningTime && now - lastWarningTime[p.userID] < MessageCooldown {
        return Deny(None);
      }
      lastWarningTime := lastWarningTime[p.userID := now];
      return Deny(Some(CannotEquipRestrictedWhileMounted(item.value.displayName)));
    }
  }
}
