/**
 * The rules of the plugin's two hooks. `CanMountEntity` decides whether a
 * player may get onto a vehicle; `EquipStep` decides whether a mounted player
 * may put on an item and, through the per-player warning times, whether the
 * refusal is announced. Host objects that may be null are `Option`s; the
 * bypass permission is a boolean the host looks up.
 */
module Policy {
  import opened Wrappers
  import opened Text
  import opened Config

  /** An inventory item: `info.shortname` and `info.displayName.english`. */
  datatype Item = Item(shortname: string, displayName: string)

  /** A `BaseVehicle`, known by its short prefab name. */
  datatype Vehicle = Vehicle(shortPrefabName: string)

  /** A `BaseMountable` and the vehicle it belongs to, if any. */
  datatype Mountable = Mountable(vehicle: Option<Vehicle>)

  /**
   * A `BasePlayer`: its id, the items in its wear container in slot order,
   * the `isMounted` flag and what `GetMounted()` returns.
   */
  datatype Player = Player(userID: nat, wear: seq<Item>, isMounted: bool, mounted: Option<Mountable>)

  /** The two chat messages, by key, with the argument they are formatted with. */
  datatype Message =
    | MountRestrictedItems(itemList: string)
    | CannotEquipRestrictedWhileMounted(itemName: string)

  /** A hook's answer: `null` lets the action go ahead, `false` cancels it. */
  datatype Decision = Allow | Deny(message: Option<Message>)

  /** The equip hook's answer together with the warning times after it. */
  datatype EquipOutcome = EquipOutcome(decision: Decision, lastWarningTime: map<nat, int>)

  /** Time that must pass between two equip warnings to the same player. */
  const MessageCooldown: int := 2

  /** Some configured prefab name occurs inside the vehicle's short prefab name. */
  ghost predicate Monitored(config: Option<Configuration>, vehicle: Option<Vehicle>) {
    && vehicle.Some? && config.Some? && config.value.vehiclesPrefabs.Some?
    && exists p :: p in config.value.vehiclesPrefabs.value && IsSubstring(p, vehicle.value.shortPrefabName)
  }

  function IsAffectedVehicle(config: Option<Configuration>, vehicle: Option<Vehicle>): (r: bool)
    ensures r <==> Monitored(config, vehicle)
  {
    if vehicle.None? || config.None? || config.value.vehiclesPrefabs.None? then false
    else exists p | p in config.value.vehiclesPrefabs.value :: Contains(vehicle.value.shortPrefabName, p)
  }

  /** Display names of the worn items whose shortname is blocked, in slot order. */
  function Restricted(blocked: seq<string>, wear: seq<Item>): seq<string>
    decreases |wear|
  {
    if wear == [] then []
    else
      var prefix := Restricted(blocked, wear[..|wear| - 1]);
      var item := wear[|wear| - 1];
      if item.shortname in blocked then prefix + [item.displayName] else prefix
  }

  /**
   * What `GetWornRestrictedItems` returns: nothing when there is no blocked
   * list, and otherwise something exactly when a blocked item is worn.
   */
  function RestrictedNames(config: Option<Configuration>, wear: seq<Item>): (r: seq<string>)
    ensures |r| <= |wear|
    ensures r != [] <==> WearsBlocked(config, wear)
  {
    if config.None? || config.value.blockedItems.None? then []
    else
      RestrictedContents(config.value.blockedItems.value, wear);
      Restricted(config.value.blockedItems.value, wear)
  }

  /** Walks the wear container once and collects the blocked items' display names. */
  method GetWornRestrictedItems(config: Option<Configuration>, wear: seq<Item>) returns (restrictedItems: seq<string>)
    ensures restrictedItems == RestrictedNames(config, wear)
  {
    restrictedItems := [];
    if config.None? || config.value.blockedItems.None? {
      return;
    }
    var blocked := config.value.blockedItems.value;
    for i := 0 to |wear|
      invariant restrictedItems == Restricted(blocked, wear[..i])
    {
      assert wear[..i + 1][..i] == wear[..i];
      if wear[i].shortname in blocked {
        restrictedItems := restrictedItems + [wear[i].displayName];
      }
    }
    assert wear[..|wear|] == wear;
  }

  /** The worn item at slot `i` is on the blocked list. */
  ghost predicate BlockedAt(blocked: seq<string>, wear: seq<Item>, i: int) {
    0 <= i < |wear| && wear[i].shortname in blocked
  }

  /** Filtering distributes over concatenation, so slot order is kept. */
  lemma {:induction false} RestrictedAppend(blocked: seq<string>, a: seq<Item>, b: seq<Item>)
    ensures Restricted(blocked, a + b) == Restricted(blocked, a) + Restricted(blocked, b)
    decreases |b|
  {
    if b == [] {
      assert a + b == a;
    } else {
      var n := |b| - 1;
      RestrictedAppend(blocked, a, b[..n]);
      assert (a + b)[..|a + b| - 1] == a + b[..n];
    }
  }

  /**
   * One name per blocked worn item: the list is no longer than the wear
   * container, holds exactly the display names of blocked worn items, and is
   * empty exactly when nothing worn is blocked.
   */
  lemma {:induction false} RestrictedContents(blocked: seq<string>, wear: seq<Item>)
    ensures |Restricted(blocked, wear)| <= |wear|
    ensures forall n :: n in Restricted(blocked, wear) <==>
      exists i :: BlockedAt(blocked, wear, i) && wear[i].displayName == n
    ensures Restricted(blocked, wear) == [] <==> forall i :: !BlockedAt(blocked, wear, i)
    decreases |wear|
  {
    if wear != [] {
      var k := |wear| - 1;
      var init := wear[..k];
      RestrictedContents(blocked, init);
      forall i | 0 <= i < k ensures BlockedAt(blocked, init, i) == BlockedAt(blocked, wear, i) {
        assert init[i] == wear[i];
      }
      if wear[k].shortname in blocked {
        assert BlockedAt(blocked, wear, k);
      }
    }
  }

  /**
   * One display name per worn item whose shortname is blocked: the length of
   * the list is the number of such wear slots, whatever the shortnames.
   */
  lemma {:induction false} RestrictedCount(blocked: seq<string>, wear: seq<Item>)
    ensures |Restricted(blocked, wear)| == |set i | 0 <= i < |wear| && wear[i].shortname in blocked|
    decreases |wear|
  {
    if wear != [] {
      var k := |wear| - 1;
      var init := wear[..k];
      RestrictedCount(blocked, init);
      var before := set i | 0 <= i < |init| && init[i].shortname in blocked;
      var after := set i | 0 <= i < |wear| && wear[i].shortname in blocked;
      if wear[k].shortname in blocked {
        assert after == before + {k};
      } else {
        assert after == before;
      }
    }
  }

  /** The shortname of every worn item is different. */
  ghost predicate DistinctShortnames(wear: seq<Item>) {
    forall i, j :: 0 <= i < j < |wear| ==> wear[i].shortname != wear[j].shortname
  }

  /** The blocked shortnames that are being worn. */
  ghost function WornBlocked(blocked: seq<string>, wear: seq<Item>): set<string> {
    set i | 0 <= i < |wear| && wear[i].shortname in blocked :: wear[i].shortname
  }

  lemma {:induction false} RestrictedCountsWornBlocked(blocked: seq<string>, wear: seq<Item>)
    requires DistinctShortnames(wear)
    ensures |Restricted(blocked, wear)| == |WornBlocked(blocked, wear)|
    decreases |wear|
  {
    if wear != [] {
      var k := |wear| - 1;
      var init := wear[..k];
      RestrictedCountsWornBlocked(blocked, init);
      var s := wear[k].shortname;
      if s in blocked {
        assert WornBlocked(blocked, wear) == WornBlocked(blocked, init) + {s};
        assert s !in WornBlocked(blocked, init);
      } else {
        assert WornBlocked(blocked, wear) == WornBlocked(blocked, init);
      }
    }
  }

  lemma {:induction false} CardinalityOfDistinct(xs: seq<string>)
    requires NoDuplicates(xs)
    ensures |set x | x in xs| == |xs|
    decreases |xs|
  {
    if xs != [] {
      var k := |xs| - 1;
      CardinalityOfDistinct(xs[..k]);
      assert (set x | x in xs) == (set x | x in xs[..k]) + {xs[k]};
      assert xs[k] !in (set x | x in xs[..k]);
    }
  }

  lemma SubsetOfSameSize(a: set<string>, b: set<string>)
    requires a <= b && |a| >= |b|
    ensures a == b
  {
    assert b == a + (b - a);
    assert |b - a| == 0;
  }

  /**
   * With a duplicate-free blocked list and worn items of distinct
   * shortnames, the count rule of `RequireAllItems` (at least as many
   * restricted names as blocked entries) says exactly that every blocked item
   * is worn.
   */
  lemma CountRuleIsWearingAll(blocked: seq<string>, wear: seq<Item>)
    requires NoDuplicates(blocked) && DistinctShortnames(wear)
    ensures |Restricted(blocked, wear)| >= |blocked| <==>
      forall b :: b in blocked ==> exists i :: 0 <= i < |wear| && wear[i].shortname == b
  {
    RestrictedCountsWornBlocked(blocked, wear);
    CardinalityOfDistinct(blocked);
    var w, all := WornBlocked(blocked, wear), set x | x in blocked;
    assert w <= all;
    if |Restricted(blocked, wear)| >= |blocked| {
      SubsetOfSameSize(w, all);
      forall b | b in blocked ensures exists i :: 0 <= i < |wear| && wear[i].shortname == b {
        assert b in w;
      }
    }
    if forall b :: b in blocked ==> exists i :: 0 <= i < |wear| && wear[i].shortname == b {
      forall b | b in all ensures b in w {
        var i :| 0 <= i < |wear| && wear[i].shortname == b;
      }
      assert w == all;
    }
  }

  /** The player wears at least one item on the configured blocked list. */
  ghost predicate WearsBlocked(config: Option<Configuration>, wear: seq<Item>) {
    && config.Some? && config.value.blockedItems.Some?
    && exists i :: BlockedAt(config.value.blockedItems.value, wear, i)
  }

  /**
   * The mount hook. It refuses exactly when a player without the bypass
   * permission gets onto a monitored vehicle wearing a blocked item, and,
   * under `RequireAllItems`, wears at least as many blocked items as the
   * list has entries. The refusal always carries the names joined by "\n".
   * It has no warning-time state to read or write.
   */
  function CanMountEntity(config: Option<Configuration>, player: Option<Player>, mountable: Option<Mountable>, hasBypass: bool): (r: Decision)
    ensures r.Deny? <==>
      && player.Some? && mountable.Some? && !hasBypass
      && Monitored(config, mountable.value.vehicle)
      && WearsBlocked(config, player.value.wear)
      && (config.value.requireAllItems ==>
            |RestrictedNames(config, player.value.wear)| >= |config.value.blockedItems.value|)
    ensures r.Deny? ==>
      r.message == Some(MountRestrictedItems(Join("\n", RestrictedNames(config, player.value.wear))))
  {
    if player.None? || mountable.None? then Allow
    else if hasBypass then Allow
    else
      var vehicle := mountable.value.vehicle;
      if vehicle.None? then Allow
      else if !IsAffectedVehicle(config, vehicle) then Allow
      else
        var restrictedItems := RestrictedNames(config, player.value.wear);
        if |restrictedItems| == 0 then Allow
        else if config.value.requireAllItems && |restrictedItems| < |config.value.blockedItems.value| then Allow
        else Deny(Some(MountRestrictedItems(Join("\n", restrictedItems))))
  }

  /** Wearing one more item whose shortname is not blocked never changes the mount decision. */
  lemma UnblockedItemChangesNothing(config: Configuration, player: Player, item: Item,
                                    mountable: Option<Mountable>, hasBypass: bool)
    requires config.blockedItems.Some? && item.shortname !in config.blockedItems.value
    ensures CanMountEntity(Some(config), Some(player.(wear := player.wear + [item])), mountable, hasBypass)
      == CanMountEntity(Some(config), Some(player), mountable, hasBypass)
  {
  }

  /** A player with the bypass permission always gets on. */
  lemma MountBypassAllows(config: Option<Configuration>, player: Option<Player>, mountable: Option<Mountable>)
    ensures CanMountEntity(config, player, mountable, true) == Allow
  {
  }

  /**
   * Under `RequireAllItems`, for a cleaned configuration and worn items of
   * distinct shortnames, the mount is refused exactly when the vehicle is
   * monitored and every entry of a non-empty blocked list is worn.
   */
  lemma MountRequireAll(config: Configuration, player: Player, mountable: Mountable)
    requires Cleaned(config) && config.requireAllItems
    requires DistinctShortnames(player.wear)
    ensures CanMountEntity(Some(config), Some(player), Some(mountable), false).Deny? <==>
      && Monitored(Some(config), mountable.vehicle)
      && config.blockedItems.value != []
      && forall b :: b in config.blockedItems.value ==>
           exists i :: 0 <= i < |player.wear| && player.wear[i].shortname == b
  {
    var blocked := config.blockedItems.value;
    CountRuleIsWearingAll(blocked, player.wear);
    if blocked != [] && forall b :: b in blocked ==> exists i :: 0 <= i < |player.wear| && player.wear[i].shortname == b {
      assert blocked[0] in blocked;
      var i :| 0 <= i < |player.wear| && player.wear[i].shortname == blocked[0];
      assert BlockedAt(blocked, player.wear, i);
    }
  }

  /** Without `RequireAllItems`, one blocked item worn on a monitored vehicle is enough. */
  lemma MountRequireAny(config: Configuration, player: Player, mountable: Mountable, i: nat)
    requires !config.requireAllItems && config.blockedItems.Some?
    requires Monitored(Some(config), mountable.vehicle)
    requires BlockedAt(config.blockedItems.value, player.wear, i)
    ensures CanMountEntity(Some(config), Some(player), Some(mountable), false).Deny?
  {
  }

  /**
   * The refusal message loses nothing: split at its line breaks it gives back
   * the display names of the blocked worn items, in slot order.
   */
  lemma MountMessageListsItems(config: Option<Configuration>, player: Option<Player>, mountable: Option<Mountable>, hasBypass: bool)
    requires player.Some? ==> forall i :: 0 <= i < |player.value.wear| ==> NoLineBreak(player.value.wear[i].displayName)
    ensures var r := CanMountEntity(config, player, mountable, hasBypass);
      r.Deny? ==>
        (r.message.Some? && r.message.value.MountRestrictedItems? &&
         SplitLines(r.message.value.itemList) == RestrictedNames(config, player.value.wear))
  {
    var r := CanMountEntity(config, player, mountable, hasBypass);
    if r.Deny? {
      var blocked, wear := config.value.blockedItems.value, player.value.wear;
      var names := RestrictedNames(config, wear);
      RestrictedContents(blocked, wear);
      forall k | 0 <= k < |names| ensures NoLineBreak(names[k]) {
        assert names[k] in names;
      }
      SplitJoinLines(names);
    }
  }

  /**
   * The equip hook with the warning times before it. A player without the
   * bypass permission who puts on a blocked item while mounted on a monitored
   * vehicle is refused; the refusal is announced, and the time recorded, only
   * when the player has no recorded warning or the last one is at least
   * `MessageCooldown` old. The configuration must have been loaded: the
   * blocked list is read without a null check.
   */
  function EquipStep(config: Option<Configuration>, player: Option<Player>, item: Option<Item>, hasBypass: bool,
                     now: int, lastWarningTime: map<nat, int>): (r: EquipOutcome)
    requires player.Some? && item.Some? && !hasBypass ==> config.Some? && config.value.blockedItems.Some?
    ensures r.decision.Deny? <==>
      && player.Some? && item.Some? && !hasBypass
      && item.value.shortname in config.value.blockedItems.value
      && player.value.isMounted && player.value.mounted.Some?
      && Monitored(config, player.value.mounted.value.vehicle)
    ensures r.decision.Deny? ==>
      var id := player.value.userID;
      if id !in lastWarningTime || now - lastWarningTime[id] >= MessageCooldown then
        && r.decision.message == Some(CannotEquipRestrictedWhileMounted(item.value.displayName))
        && r.lastWarningTime == lastWarningTime[id := now]
      else
        r.decision.message.None? && r.lastWarningTime == lastWarningTime
    ensures r.decision == Allow ==> r.lastWarningTime == lastWarningTime
  {
    if item.None? || player.None? then EquipOutcome(Allow, lastWarningTime)
    else if hasBypass then EquipOutcome(Allow, lastWarningTime)
    else if item.value.shortname !in config.value.blockedItems.value then EquipOutcome(Allow, lastWarningTime)
    else
      var p := player.value;
      if !p.isMounted then EquipOutcome(Allow, lastWarningTime)
      else if p.mounted.None? then EquipOutcome(Allow, lastWarningTime)
      else if p.mounted.value.vehicle.None? then EquipOutcome(Allow, lastWarningTime)
      else if !IsAffectedVehicle(config, p.mounted.value.vehicle) then EquipOutcome(Allow, lastWarningTime)
      else if p.userID in lastWarningTime && now - lastWarningTime[p.userID] < MessageCooldown then
        EquipOutcome(Deny(None), lastWarningTime)
      else
        EquipOutcome(Deny(Some(CannotEquipRestrictedWhileMounted(item.value.displayName))),
                     lastWarningTime[p.userID := now])
  }

  /** A player with the bypass permission may always equip, and no warning time is touched. */
  lemma EquipBypassAllows(config: Option<Configuration>, player: Option<Player>, item: Option<Item>,
                          now: int, lastWarningTime: map<nat, int>)
    ensures EquipStep(config, player, item, true, now, lastWarningTime) == EquipOutcome(Allow, lastWarningTime)
  {
  }

  /**
   * Only the equipping player's warning time can change, and it only moves
   * forward: by at least the cooldown when it existed before.
   */
  lemma EquipTouchesOnlyOwnEntry(config: Option<Configuration>, player: Option<Player>, item: Option<Item>,
                                 hasBypass: bool, now: int, lastWarningTime: map<nat, int>)
    requires player.Some? && item.Some? && !hasBypass ==> config.Some? && config.value.blockedItems.Some?
    ensures var after := EquipStep(config, player, item, hasBypass, now, lastWarningTime).lastWarningTime;
      && (forall k :: k in after && (player.None? || k != player.value.userID) ==>
            k in lastWarningTime && after[k] == lastWarningTime[k])
      && (forall k :: k in lastWarningTime ==> k in after && after[k] >= lastWarningTime[k])
      && (forall k :: k in lastWarningTime && after[k] != lastWarningTime[k] ==>
            after[k] >= lastWarningTime[k] + MessageCooldown)
  {
  }

  /**
   * Three refused equips by the same player: the first is announced, a
   * second less than the cooldown later is silent, and a third at least the
   * cooldown after the first is announced again.
   */
  lemma EquipWarningCooldown(config: Option<Configuration>, player: Player, item: Item,
                             t1: int, t2: int, t3: int, lastWarningTime: map<nat, int>)
    requires config.Some? && config.value.blockedItems.Some?
    requires EquipStep(config, Some(player), Some(item), false, t1, lastWarningTime).decision.Deny?
    requires player.userID !in lastWarningTime
    requires t1 <= t2 < t1 + MessageCooldown && t3 >= t1 + MessageCooldown
    ensures var o1 := EquipStep(config, Some(player), Some(item), false, t1, lastWarningTime);
      var o2 := EquipStep(config, Some(player), Some(item), false, t2, o1.lastWarningTime);
      var o3 := EquipStep(config, Some(player), Some(item), false, t3, o2.lastWarningTime);
      && o1.decision == Deny(Some(CannotEquipRestrictedWhileMounted(item.displayName)))
      && o2.decision == Deny(None)
      && o3.decision == Deny(Some(CannotEquipRestrictedWhileMounted(item.displayName)))
      && o3.lastWarningTime == lastWarningTime[player.userID := t3]
  {
  }
}
