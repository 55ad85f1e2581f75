/** Concrete situations, worked through the hook models. */
module Scenarios {
  import opened Wrappers
  import opened Text
  import opened Config
  import opened Policy
  import opened Plugin

  const Helmet := Item("heavy.plate.helmet", "Heavy Plate Helmet")
  const Jacket := Item("heavy.plate.jacket", "Heavy Plate Jacket")
  const Minicopter := Mountable(Some(Vehicle("minicopter.entity")))

  function OnFoot(id: nat, wear: seq<Item>): Player {
    Player(id, wear, false, None)
  }

  lemma MinicopterMonitored(prefabs: seq<string>, c: Configuration)
    requires "minicopter.entity" in prefabs && c.vehiclesPrefabs == Some(prefabs)
    ensures IsAffectedVehicle(Some(c), Minicopter.vehicle)
  {
  }

  /** A monitored vehicle whose prefab name carries a suffix is still monitored. */
  lemma SuffixedPrefabIsAffected()
    ensures IsAffectedVehicle(Some(DefaultConfiguration), Some(Vehicle("rowboat_skin2")))
  {
    assert "rowboat" in DefaultVehiclesPrefabs;
    assert OccursAt("rowboat", "rowboat_skin2", 0);
  }

  /** The monitored name must occur inside the vehicle's name, not the other way round. */
  lemma ContainmentHasADirection(c: Configuration, v: Vehicle)
    requires c.vehiclesPrefabs.Some?
    requires forall p :: p in c.vehiclesPrefabs.value ==> |p| > |v.shortPrefabName|
    ensures !IsAffectedVehicle(Some(c), Some(v))
    ensures !IsAffectedVehicle(Some(Configuration("1.0.3", Some(["rowboat_skin2"]), Some([]), false)),
                               Some(Vehicle("rowboat")))
  {
  }

  /** With the built-in defaults a plate helmet keeps a player off a minicopter. */
  lemma HelmetBlocksMinicopter()
    ensures CanMountEntity(Some(DefaultConfiguration), Some(OnFoot(7, [Helmet])), Some(Minicopter), false)
      == Deny(Some(MountRestrictedItems("Heavy Plate Helmet")))
  {
    MinicopterMonitored(DefaultVehiclesPrefabs, DefaultConfiguration);
    assert Restricted(DefaultBlockedItems, [Helmet]) == Restricted(DefaultBlockedItems, [Helmet][..0]) + ["Heavy Plate Helmet"];
  }

  /** A jacket does not matter when only the helmet is blocked. */
  lemma UnlistedItemDoesNotBlock()
    ensures CanMountEntity(Some(Configuration("1.0.3", Some(["minicopter.entity"]), Some(["heavy.plate.helmet"]), false)),
                           Some(OnFoot(7, [Jacket])), Some(Minicopter), false) == Allow
  {
    assert Restricted(["heavy.plate.helmet"], [Jacket]) == Restricted(["heavy.plate.helmet"], [Jacket][..0]);
  }

  const RequireBoth := Configuration("1.0.3", Some(["minicopter.entity"]), Some(["a", "b"]), true)

  /** Under `RequireAllItems`, one of two blocked items lets the player on, both do not. */
  lemma RequireAllNeedsEveryItem()
    ensures CanMountEntity(Some(RequireBoth), Some(OnFoot(7, [Item("a", "A")])), Some(Minicopter), false) == Allow
    ensures CanMountEntity(Some(RequireBoth), Some(OnFoot(7, [Item("a", "A"), Item("b", "B")])), Some(Minicopter), false)
      == Deny(Some(MountRestrictedItems("A\nB")))
  {
    MinicopterMonitored(["minicopter.entity"], RequireBoth);
    var one, two := [Item("a", "A")], [Item("a", "A"), Item("b", "B")];
    assert Restricted(["a", "b"], one) == Restricted(["a", "b"], one[..0]) + ["A"];
    assert two[..1] == one;
    assert Restricted(["a", "b"], two) == ["A", "B"];
    assert ["A", "B"][1..] == ["B"];
    assert Join("\n", ["A", "B"]) == "A" + "\n" + "B" == "A\nB";
    assert RestrictedNames(Some(RequireBoth), two) == ["A", "B"];
    assert |RestrictedNames(Some(RequireBoth), two)| >= 2;
  }

  /**
   * `RequireAllItems` compares counts, not sets: two worn items with the same
   * blocked shortname count as two, so they block although "b" is not worn.
   */
  lemma RequireAllCountsWornItems()
    ensures CanMountEntity(Some(RequireBoth), Some(OnFoot(7, [Item("a", "A"), Item("a", "A")])), Some(Minicopter), false).Deny?
  {
    MinicopterMonitored(["minicopter.entity"], RequireBoth);
    var one, two := [Item("a", "A")], [Item("a", "A"), Item("a", "A")];
    assert Restricted(["a", "b"], one) == Restricted(["a", "b"], one[..0]) + ["A"];
    assert two[..1] == one;
    assert Restricted(["a", "b"], two) == Restricted(["a", "b"], one) + ["A"];
  }

  /**
   * Against the plugin object: a helmet put on twice within a second on a
   * minicopter is refused with a message and then silently; unloading forgets
   * the warning.
   */
  method EquipTwiceThenUnload()
  {
    var plugin := new NoHeavyGear();
    plugin.LoadConfig(None);
    var rider := Player(7, [], true, Some(Minicopter));
    MinicopterMonitored(DefaultVehiclesPrefabs, DefaultConfiguration);
    var first := plugin.CanWearItem(Some(rider), Some(Helmet), false, 10);
    assert first == Deny(Some(CannotEquipRestrictedWhileMounted("Heavy Plate Helmet")));
    var second := plugin.CanWearItem(Some(rider), Some(Helmet), false, 11);
    assert second == Deny(None);
    assert plugin.lastWarningTime == map[7 := 10];
    plugin.Unload();
    assert plugin.lastWarningTime == map[];
  }
}
