/** The `COMMAND.ATI` catalog: information field name to the code queried with `AT$I=<code>`. */
module Constants {
  import opened Wrappers

  /** The catalog entries, in declaration order (the order `Object.keys` reports them). */
  const AtiCatalog: seq<(string, nat)> := [
    ("softwareNameAndVersion", 0),
    ("contactDetail", 1),
    ("siliconRevisionLowerByte", 2),
    ("siliconRevisionUpperByte", 3),
    ("majorFirmwareVersion", 4),
    ("minorFirmwareVersion", 5),
    ("firmwareVariant", 7),
    ("firmwareVcsVersion", 8),
    ("sigfoxLibraryVersion", 9),
    ("deviceId", 10)
  ]

  /** `Object.keys(constants.COMMAND.ATI).length` */
  function NumKeys(): (n: nat)
    ensures n == 10
  {
    |AtiCatalog|
  }

  /** `Object.keys(constants.COMMAND.ATI)[index]` */
  function KeyAt(index: nat): string
    requires index < NumKeys()
  {
    AtiCatalog[index].0
  }

  /** `constants.COMMAND.ATI[KeyAt(index)]` */
  function CodeAt(index: nat): nat
    requires index < NumKeys()
  {
    AtiCatalog[index].1
  }

  /** Looking a field name up in the catalog object: None for a name that is not a key. */
  function CodeOf(name: string): (r: Option<nat>)
    ensures r.Some? <==> exists i :: 0 <= i < |AtiCatalog| && AtiCatalog[i].0 == name
    ensures forall i :: 0 <= i < |AtiCatalog| && AtiCatalog[i].0 == name ==> r == Some(AtiCatalog[i].1)
  {
    CatalogWellFormed();
    FindCode(AtiCatalog, name)
  }

  function FindCode(entries: seq<(string, nat)>, name: string): (r: Option<nat>)
    requires forall i, j :: 0 <= i < j < |entries| ==> entries[i].0 != entries[j].0
    ensures r.Some? <==> exists i :: 0 <= i < |entries| && entries[i].0 == name
    ensures forall i :: 0 <= i < |entries| && entries[i].0 == name ==> r == Some(entries[i].1)
  {
    if entries == [] then None
    else if entries[0].0 == name then Some(entries[0].1)
    else
      var r := FindCode(entries[1..], name);
      assert forall i :: 1 <= i < |entries| ==> entries[i] == entries[1..][i - 1];
      r
  }

  /** Field names and codes are each pairwise distinct, codes strictly increasing in declaration order. */
  lemma CatalogWellFormed()
    ensures forall i, j :: 0 <= i < j < |AtiCatalog| ==> AtiCatalog[i].1 < AtiCatalog[j].1
    ensures forall i, j :: 0 <= i < j < |AtiCatalog| ==> AtiCatalog[i].0 != AtiCatalog[j].0
  {
  }

  /** The fixed mapping, in declaration order; deviceId is the last informational field. */
  lemma CatalogMapping()
    ensures KeyAt(0) == "softwareNameAndVersion" && CodeAt(0) == 0
    ensures KeyAt(1) == "contactDetail" && CodeAt(1) == 1
    ensures KeyAt(2) == "siliconRevisionLowerByte" && CodeAt(2) == 2
    ensures KeyAt(3) == "siliconRevisionUpperByte" && CodeAt(3) == 3
    ensures KeyAt(4) == "majorFirmwareVersion" && CodeAt(4) == 4
    ensures KeyAt(5) == "minorFirmwareVersion" && CodeAt(5) == 5
    ensures KeyAt(6) == "firmwareVariant" && CodeAt(6) == 7
    ensures KeyAt(7) == "firmwareVcsVersion" && CodeAt(7) == 8
    ensures KeyAt(8) == "sigfoxLibraryVersion" && CodeAt(8) == 9
    ensures KeyAt(NumKeys() - 1) == "deviceId" && CodeAt(NumKeys() - 1) == 10
  {
  }

  /** Every key looks up its own code, and no key has code 6. */
  lemma LookupByKey()
    ensures forall i :: 0 <= i < NumKeys() ==> CodeOf(KeyAt(i)) == Some(CodeAt(i))
    ensures forall name :: CodeOf(name) != Some(6)
  {
    forall name ensures CodeOf(name) != Some(6) {
      if CodeOf(name).Some? {
        var i :| 0 <= i < |AtiCatalog| && AtiCatalog[i].0 == name;
      }
    }
  }
}
