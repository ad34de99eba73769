/**
 * Inventory key extraction: the set of "namespace/name" keys of the
 * HelmReleases that some Flux Kustomization currently lists in
 * `status.inventory.entries`.
 */
module Inventory {
  import opened Wrappers
  import opened Text

  /** One inventory entry, `{"id": ..., "v": ...}`; either field may be absent. */
  datatype InventoryEntry = InventoryEntry(id: Option<string>, v: Option<string>)

  /** `status.inventory`, whose `entries` list may be absent. */
  datatype ResourceInventory = ResourceInventory(entries: Option<seq<InventoryEntry>>)

  /** `status` of a Kustomization, whose `inventory` may be absent. */
  datatype KustomizationStatus = KustomizationStatus(inventory: Option<ResourceInventory>)

  /** A Kustomization as fetched from the cluster; only its `status` matters here. */
  datatype Kustomization = Kustomization(status: Option<KustomizationStatus>)

  /** Marks an entry id as naming a HelmRelease object ... */
  const KindMarker: string := "_HelmRelease"
  /** ... of the Flux helm-controller API group. */
  const GroupMarker: string := "helm.toolkit.fluxcd.io"
  /** Separates namespace, name, group and kind inside an entry id. */
  const Separator: char := '_'

  /** The entry's `id`, `""` when absent. */
  function EntryId(e: InventoryEntry): string {
    e.id.GetOr("")
  }

  /** `status.inventory.entries`, empty when any level is absent. */
  function Entries(ks: Kustomization): seq<InventoryEntry> {
    match ks.status
    case None => []
    case Some(st) =>
      match st.inventory
      case None => []
      case Some(inv) => inv.entries.GetOr([])
  }

  /** The key the program uses for a release: `f"{ns}/{name}"`. */
  function ReleaseKey(ns: string, name: string): string {
    ns + "/" + name
  }

  /** The entry id carries both the kind marker and the group marker. */
  predicate NamesHelmRelease(id: string) {
    Contains(id, KindMarker) && Contains(id, GroupMarker)
  }

  /**
   * The key an entry id contributes: for a HelmRelease id, the first two
   * `_`-separated tokens joined by `/`. The length guard on the tokens never
   * fails once the kind marker (which holds a `_`) is present, so an id
   * contributes a key exactly when it carries both markers.
   */
  function DecodeEntryId(id: string): (key: Option<string>)
    ensures key.Some? <==> NamesHelmRelease(id)
  {
    if Contains(id, KindMarker) && Contains(id, GroupMarker) then
      var parts := Split(id, Separator);
      ContainsHead(id, KindMarker);
      SplitAtSeparator(id, Separator);
      if |parts| >= 2 then Some(ReleaseKey(parts[0], parts[1])) else None
    else None
  }

  /**
   * An id that starts with a separator-free namespace and name decodes to
   * their key, whatever follows them.
   */
  lemma DecodeLeadingTokens(ns: string, name: string, rest: string)
    requires Separator !in ns && Separator !in name
    requires NamesHelmRelease(ns + [Separator] + name + [Separator] + rest)
    ensures DecodeEntryId(ns + [Separator] + name + [Separator] + rest) == Some(ReleaseKey(ns, name))
  {
    var id := ns + [Separator] + name + [Separator] + rest;
    assert id == ns + [Separator] + (name + [Separator] + rest);
    SplitLeadingToken(ns, Separator, name + [Separator] + rest);
    SplitLeadingToken(name, Separator, rest);
  }

  /** The id Flux writes for a HelmRelease: `<namespace>_<name>_<group>_<kind>`. */
  function EncodeEntryId(ns: string, name: string): string {
    ns + [Separator] + name + [Separator] + GroupMarker + KindMarker
  }

  /** Decoding the id Flux writes for a release gives back the release's key. */
  lemma DecodeEncode(ns: string, name: string)
    requires Separator !in ns && Separator !in name
    ensures DecodeEntryId(EncodeEntryId(ns, name)) == Some(ReleaseKey(ns, name))
  {
    var id := EncodeEntryId(ns, name);
    var rest := GroupMarker + [Separator] + "HelmRelease";
    assert id == ns + [Separator] + name + [Separator] + rest;
    ContainsPlaced(ns + [Separator] + name + [Separator] + GroupMarker, KindMarker, []);
    assert id == ns + [Separator] + name + [Separator] + GroupMarker + KindMarker + [];
    ContainsPlaced(ns + [Separator] + name + [Separator], GroupMarker, KindMarker);
    assert id == ns + [Separator] + name + [Separator] + GroupMarker + KindMarker;
    DecodeLeadingTokens(ns, name, rest);
  }

  /**
   * The encoding does not escape `_`: a release whose name holds one is
   * recorded under the key of the name's first segment, so the round trip of
   * DecodeEncode fails for it.
   */
  lemma SeparatorInNameTruncates(ns: string, n1: string, n2: string)
    requires Separator !in ns && Separator !in n1
    ensures DecodeEntryId(EncodeEntryId(ns, n1 + [Separator] + n2)) == Some(ReleaseKey(ns, n1))
    ensures ReleaseKey(ns, n1) != ReleaseKey(ns, n1 + [Separator] + n2)
  {
    var name := n1 + [Separator] + n2;
    var id := EncodeEntryId(ns, name);
    var rest := n2 + [Separator] + GroupMarker + [Separator] + "HelmRelease";
    assert id == ns + [Separator] + n1 + [Separator] + rest;
    ContainsPlaced(ns + [Separator] + name + [Separator] + GroupMarker, KindMarker, []);
    assert id == ns + [Separator] + name + [Separator] + GroupMarker + KindMarker + [];
    ContainsPlaced(ns + [Separator] + name + [Separator], GroupMarker, KindMarker);
    assert id == ns + [Separator] + name + [Separator] + GroupMarker + KindMarker;
    DecodeLeadingTokens(ns, n1, rest);
    assert |ReleaseKey(ns, n1)| < |ReleaseKey(ns, name)|;
  }

  /** The keys a list of entries contributes. */
  function EntryKeys(es: seq<InventoryEntry>): set<string> {
    if es == [] then {}
    else
      var last := DecodeEntryId(EntryId(es[|es| - 1]));
      EntryKeys(es[..|es| - 1]) + (if last.Some? then {last.value} else {})
  }

  /** The Kustomization lists an entry that decodes to `key`. */
  predicate Declares(ks: Kustomization, key: string) {
    exists j | 0 <= j < |Entries(ks)| :: DecodeEntryId(EntryId(Entries(ks)[j])) == Some(key)
  }

  /** The managed set: the keys of all entries of all Kustomizations. */
  function ManagedSet(kss: seq<Kustomization>): set<string> {
    if kss == [] then {}
    else ManagedSet(kss[..|kss| - 1]) + EntryKeys(Entries(kss[|kss| - 1]))
  }

  lemma {:induction false} EntryKeysMembers(es: seq<InventoryEntry>, key: string)
    ensures key in EntryKeys(es)
        <==> exists j | 0 <= j < |es| :: DecodeEntryId(EntryId(es[j])) == Some(key)
  {
    if es != [] {
      var init := es[..|es| - 1];
      EntryKeysMembers(init, key);
      if exists j | 0 <= j < |init| :: DecodeEntryId(EntryId(init[j])) == Some(key) {
        var j :| 0 <= j < |init| && DecodeEntryId(EntryId(init[j])) == Some(key);
        assert es[j] == init[j];
      }
      if exists j | 0 <= j < |es| :: DecodeEntryId(EntryId(es[j])) == Some(key) {
        var j :| 0 <= j < |es| && DecodeEntryId(EntryId(es[j])) == Some(key);
        if j < |init| {
          assert init[j] == es[j];
        }
      }
    }
  }

  /**
   * A key is managed exactly when some Kustomization lists an entry that
   * decodes to it.
   */
  lemma {:induction false} ManagedSetMembers(kss: seq<Kustomization>, key: string)
    ensures key in ManagedSet(kss) <==> exists ks | ks in kss :: Declares(ks, key)
  {
    if kss != [] {
      var init, last := kss[..|kss| - 1], kss[|kss| - 1];
      ManagedSetMembers(init, key);
      EntryKeysMembers(Entries(last), key);
      assert kss == init + [last];
      if exists ks | ks in kss :: Declares(ks, key) {
        var ks :| ks in kss && Declares(ks, key);
        if ks != last {
          assert ks in init;
        }
      }
      if key in ManagedSet(init) {
        var ks :| ks in init && Declares(ks, key);
        assert ks in kss;
      }
      if key in EntryKeys(Entries(last)) {
        assert Declares(last, key);
        assert last in kss;
      }
    }
  }

  /**
   * The managed set depends only on which Kustomizations there are, not on
   * their order nor on repetitions.
   */
  lemma ManagedSetOrderIndependent(kss1: seq<Kustomization>, kss2: seq<Kustomization>)
    requires forall ks :: ks in kss1 <==> ks in kss2
    ensures ManagedSet(kss1) == ManagedSet(kss2)
  {
    forall key ensures key in ManagedSet(kss1) <==> key in ManagedSet(kss2) {
      ManagedSetMembers(kss1, key);
      ManagedSetMembers(kss2, key);
    }
  }

  /**
   * A Kustomization without `status`, `status.inventory` or its `entries`
   * adds no key, wherever it stands in the list.
   */
  lemma AbsentInventoryContributesNothing(before: seq<Kustomization>, ks: Kustomization, after: seq<Kustomization>)
    requires ks.status.None? || ks.status.value.inventory.None?
          || ks.status.value.inventory.value.entries.None?
    ensures ManagedSet(before + [ks] + after) == ManagedSet(before + after)
  {
    forall key ensures key in ManagedSet(before + [ks] + after) <==> key in ManagedSet(before + after) {
      ManagedSetMembers(before + [ks] + after, key);
      ManagedSetMembers(before + after, key);
      assert !Declares(ks, key);
    }
  }

  /** A Kustomization whose inventory lists `entries`. */
  function KustomizationWith(entries: seq<InventoryEntry>): Kustomization {
    Kustomization(Some(KustomizationStatus(Some(ResourceInventory(Some(entries))))))
  }

  /** The managed set of a single Kustomization is the key set of its entries. */
  lemma ManagedSetOfOne(es: seq<InventoryEntry>)
    ensures ManagedSet([KustomizationWith(es)]) == EntryKeys(es)
  {
    assert [KustomizationWith(es)][..0] == [];
  }

  /** A single entry written by Flux for a release contributes exactly that release's key. */
  lemma EntryKeysOfEncoded(ns: string, name: string, v: Option<string>)
    requires Separator !in ns && Separator !in name
    ensures EntryKeys([InventoryEntry(Some(EncodeEntryId(ns, name)), v)]) == {ReleaseKey(ns, name)}
  {
    DecodeEncode(ns, name);
    var es := [InventoryEntry(Some(EncodeEntryId(ns, name)), v)];
    assert es[..0] == [];
    assert DecodeEntryId(EntryId(es[0])) == Some(ReleaseKey(ns, name));
  }

  /** A Kustomization listing one release under the id Flux writes for it manages exactly that release. */
  lemma ManagedSetOfOneEntry(ns: string, name: string, v: Option<string>)
    requires Separator !in ns && Separator !in name
    ensures ManagedSet([KustomizationWith([InventoryEntry(Some(EncodeEntryId(ns, name)), v)])]) == {ReleaseKey(ns, name)}
  {
    ManagedSetOfOne([InventoryEntry(Some(EncodeEntryId(ns, name)), v)]);
    EntryKeysOfEncoded(ns, name, v);
  }

  /**
   * `get_managed_helmreleases_from_inventory`: walks every entry of every
   * Kustomization and adds the key of each HelmRelease entry.
   */
  method GetManagedHelmReleasesFromInventory(kustomizations: seq<Kustomization>) returns (managed: set<string>)
    ensures managed == ManagedSet(kustomizations)
    ensures forall key :: key in managed <==> exists ks | ks in kustomizations :: Declares(ks, key)
  {
    managed := {};
    for i := 0 to |kustomizations|
      invariant managed == ManagedSet(kustomizations[..i])
    {
      var entries := Entries(kustomizations[i]);
      for j := 0 to |entries|
        invariant managed == ManagedSet(kustomizations[..i]) + EntryKeys(entries[..j])
      {
        var entryId := EntryId(entries[j]);
        assert entries[..j + 1][..j] == entries[..j];
        if Contains(entryId, KindMarker) && Contains(entryId, GroupMarker) {
          var parts := Split(entryId, Separator);
          if |parts| >= 2 {
            managed := managed + {ReleaseKey(parts[0], parts[1])};
          }
        }
      }
      assert entries[..|entries|] == entries;
      assert kustomizations[..i + 1][..i] == kustomizations[..i];
    }
    assert kustomizations[..|kustomizations|] == kustomizations;
    forall key ensures key in managed <==> exists ks | ks in kustomizations :: Declares(ks, key) {
      ManagedSetMembers(kustomizations, key);
    }
  }
}
