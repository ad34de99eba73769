/**
 * Orphan detection: the HelmReleases that carry the labels of a Flux
 * Kustomization but are listed in no Kustomization's inventory.
 */
module Detector {
  import opened Wrappers
  import opened Seqs
  import opened Inventory

  /** Label naming the Kustomization that applied the object. */
  const NameLabel: string := "kustomize.toolkit.fluxcd.io/name"
  /** Label naming that Kustomization's namespace. */
  const NamespaceLabel: string := "kustomize.toolkit.fluxcd.io/namespace"

  /** `metadata` of a HelmRelease; each field may be absent. */
  datatype Metadata = Metadata(name: Option<string>, namespace: Option<string>, labels: Option<map<string, string>>)

  /** A HelmRelease as fetched from the cluster; only its `metadata` is read. */
  datatype HelmRelease = HelmRelease(metadata: Option<Metadata>)

  /** What the detector reports for one orphan, with the release it came from in `raw`. */
  datatype OrphanRecord = OrphanRecord(
    name: string,
    namespace: string,
    originalKustomizationName: string,
    originalKustomizationNamespace: string,
    labels: map<string, string>,
    raw: HelmRelease)

  /** `hr.get("metadata", {})`. */
  function MetadataOf(hr: HelmRelease): Metadata {
    hr.metadata.GetOr(Metadata(None, None, None))
  }

  /** `metadata.name`, `""` when absent. */
  function NameOf(hr: HelmRelease): string {
    MetadataOf(hr).name.GetOr("")
  }

  /** `metadata.namespace`, `""` when absent. */
  function NamespaceOf(hr: HelmRelease): string {
    MetadataOf(hr).namespace.GetOr("")
  }

  /** `metadata.labels`, empty when absent. */
  function LabelsOf(hr: HelmRelease): map<string, string> {
    MetadataOf(hr).labels.GetOr(map[])
  }

  /** `labels.get(key)`. */
  function Label(labels: map<string, string>, key: string): Option<string> {
    if key in labels then Some(labels[key]) else None
  }

  /** Python truthiness of a label lookup: present and not the empty string. */
  predicate Truthy(v: Option<string>) {
    v.Some? && v.value != ""
  }

  /** Both Kustomization labels are set: some Kustomization once applied the release. */
  predicate HasKustomizeLabels(hr: HelmRelease) {
    Truthy(Label(LabelsOf(hr), NameLabel)) && Truthy(Label(LabelsOf(hr), NamespaceLabel))
  }

  /** Labelled as applied by a Kustomization, yet absent from every inventory. */
  predicate IsOrphan(hr: HelmRelease, managed: set<string>) {
    HasKustomizeLabels(hr) && ReleaseKey(NamespaceOf(hr), NameOf(hr)) !in managed
  }

  /** The record reported for a labelled release. */
  function RecordOf(hr: HelmRelease): OrphanRecord
    requires HasKustomizeLabels(hr)
  {
    OrphanRecord(NameOf(hr), NamespaceOf(hr),
                 Label(LabelsOf(hr), NameLabel).value, Label(LabelsOf(hr), NamespaceLabel).value,
                 LabelsOf(hr), hr)
  }

  /** The records of the orphans among `hrs`, in the order of `hrs`. */
  function Orphans(hrs: seq<HelmRelease>, managed: set<string>): seq<OrphanRecord> {
    if hrs == [] then []
    else
      var init := Orphans(hrs[..|hrs| - 1], managed);
      var hr := hrs[|hrs| - 1];
      if IsOrphan(hr, managed) then init + [RecordOf(hr)] else init
  }

  /** The releases the records were made from. */
  function Raws(os: seq<OrphanRecord>): seq<HelmRelease> {
    if os == [] then [] else Raws(os[..|os| - 1]) + [os[|os| - 1].raw]
  }

  /**
   * A record is reported exactly when it is the record of an orphan of the
   * input: its release is in the input, carries both labels, its
   * "namespace/name" is not managed, and the record copies the release's name,
   * namespace, labels and the two label values.
   */
  lemma {:induction false} OrphansMembers(hrs: seq<HelmRelease>, managed: set<string>, o: OrphanRecord)
    ensures o in Orphans(hrs, managed)
        <==> o.raw in hrs && IsOrphan(o.raw, managed) && o == RecordOf(o.raw)
  {
    if hrs != [] {
      var init := hrs[..|hrs| - 1];
      OrphansMembers(init, managed, o);
      assert hrs == init + [hrs[|hrs| - 1]];
    }
  }

  /** A reported record carries the values of the two Kustomization labels. */
  lemma RecordCarriesLabels(hrs: seq<HelmRelease>, managed: set<string>, o: OrphanRecord)
    requires o in Orphans(hrs, managed)
    ensures o.name == NameOf(o.raw) && o.namespace == NamespaceOf(o.raw)
    ensures Label(o.labels, NameLabel) == Some(o.originalKustomizationName)
    ensures Label(o.labels, NamespaceLabel) == Some(o.originalKustomizationNamespace)
    ensures o.originalKustomizationName != "" && o.originalKustomizationNamespace != ""
  {
    OrphansMembers(hrs, managed, o);
  }

  /** The orphans come in the order of the input, each input release used at most once. */
  lemma {:induction false} OrphansInInputOrder(hrs: seq<HelmRelease>, managed: set<string>)
    ensures Subseq(Raws(Orphans(hrs, managed)), hrs)
  {
    if hrs != [] {
      var init, hr := hrs[..|hrs| - 1], hrs[|hrs| - 1];
      OrphansInInputOrder(init, managed);
      var os := Orphans(init, managed);
      assert hrs == init + [hr];
      if IsOrphan(hr, managed) {
        assert (os + [RecordOf(hr)])[..|os|] == os;
        SubseqAppend(Raws(os), init, [hr]);
      } else {
        SubseqExtend(Raws(os), init, [hr]);
      }
    }
  }

  /** A release lacking either label is never reported, whatever the managed set holds. */
  lemma UnlabelledNeverReported(hrs: seq<HelmRelease>, managed: set<string>, hr: HelmRelease)
    requires !HasKustomizeLabels(hr)
    ensures forall o | o in Orphans(hrs, managed) :: o.raw != hr
  {
    forall o | o in Orphans(hrs, managed) ensures o.raw != hr {
      OrphansMembers(hrs, managed, o);
    }
  }

  /** With no inventory at all, every release carrying both labels is reported. */
  lemma EmptyInventoryReportsAllLabelled(hrs: seq<HelmRelease>, hr: HelmRelease)
    requires hr in hrs && HasKustomizeLabels(hr)
    ensures RecordOf(hr) in Orphans(hrs, {})
  {
    OrphansMembers(hrs, {}, RecordOf(hr));
  }

  /** A larger managed set reports a subsequence of what a smaller one reports. */
  lemma {:induction false} MoreManagedFewerOrphans(hrs: seq<HelmRelease>, m1: set<string>, m2: set<string>)
    requires m1 <= m2
    ensures Subseq(Orphans(hrs, m2), Orphans(hrs, m1))
  {
    if hrs != [] {
      var init, hr := hrs[..|hrs| - 1], hrs[|hrs| - 1];
      MoreManagedFewerOrphans(init, m1, m2);
      var o1, o2 := Orphans(init, m1), Orphans(init, m2);
      if IsOrphan(hr, m2) {
        SubseqAppend(o2, o1, [RecordOf(hr)]);
      } else if IsOrphan(hr, m1) {
        SubseqExtend(o2, o1, [RecordOf(hr)]);
      }
    }
  }

  /** `find_orphaned_helmreleases`: one pass over the releases, appending each orphan's record. */
  method FindOrphanedHelmReleases(helmreleases: seq<HelmRelease>, managed: set<string>)
    returns (orphans: seq<OrphanRecord>)
    ensures orphans == Orphans(helmreleases, managed)
    ensures forall o :: o in orphans <==>
              o.raw in helmreleases && IsOrphan(o.raw, managed) && o == RecordOf(o.raw)
  {
    orphans := [];
    for i := 0 to |helmreleases|
      invariant orphans == Orphans(helmreleases[..i], managed)
    {
      var hr := helmreleases[i];
      assert helmreleases[..i + 1][..i] == helmreleases[..i];
      var name := NameOf(hr);
      var namespace := NamespaceOf(hr);
      var labels := LabelsOf(hr);
      var ksName := Label(labels, NameLabel);
      var ksNamespace := Label(labels, NamespaceLabel);
      if Truthy(ksName) && Truthy(ksNamespace) {
        var releaseKey := ReleaseKey(namespace, name);
        if releaseKey !in managed {
          orphans := orphans + [OrphanRecord(name, namespace, ksName.value, ksNamespace.value, labels, hr)];
        }
      }
    }
    assert helmreleases[..|helmreleases|] == helmreleases;
    forall o ensures o in orphans
      <==> o.raw in helmreleases && IsOrphan(o.raw, managed) && o == RecordOf(o.raw)
    {
      OrphansMembers(helmreleases, managed, o);
    }
  }

  // ---------------------------------------------------------------------------
  // Worked scenarios
  // ---------------------------------------------------------------------------

  /** A release in namespace `ns` named `name`, labelled as applied by Kustomization `ksNs/ksName`. */
  function LabelledRelease(ns: string, name: string, ksName: string, ksNs: string): HelmRelease {
    HelmRelease(Some(Metadata(Some(name), Some(ns), Some(map[NameLabel := ksName, NamespaceLabel := ksNs]))))
  }

  /**
   * A labelled release that a Kustomization lists under the id Flux writes for
   * it (for example `teamA_web-release_helm.toolkit.fluxcd.io_HelmRelease`) is
   * not an orphan.
   */
  lemma ListedReleaseIsNotOrphan(ns: string, name: string, ksName: string, ksNs: string, v: Option<string>)
    requires Separator !in ns && Separator !in name && ksName != "" && ksNs != ""
    ensures Orphans([LabelledRelease(ns, name, ksName, ksNs)],
                    ManagedSet([KustomizationWith([InventoryEntry(Some(EncodeEntryId(ns, name)), v)])])) == []
  {
    ManagedSetOfOneEntry(ns, name, v);
    assert [LabelledRelease(ns, name, ksName, ksNs)][..0] == [];
  }

  /** The same release with an empty inventory is reported, with the owner taken from its labels. */
  lemma UnlistedReleaseIsOrphan(ns: string, name: string, ksName: string, ksNs: string)
    requires ksName != "" && ksNs != ""
    ensures Orphans([LabelledRelease(ns, name, ksName, ksNs)], ManagedSet([KustomizationWith([])])) ==
      [OrphanRecord(name, ns, ksName, ksNs, map[NameLabel := ksName, NamespaceLabel := ksNs],
                    LabelledRelease(ns, name, ksName, ksNs))]
  {
    var ks := KustomizationWith([]);
    assert [ks][..0] == [];
    assert ManagedSet([ks]) == {};
    assert [LabelledRelease(ns, name, ksName, ksNs)][..0] == [];
  }

  /** The scenarios for release `teamA/web-release` applied by Kustomization `flux-system/apps`. */
  lemma TeamAWebReleaseScenarios()
    ensures Orphans([LabelledRelease("teamA", "web-release", "apps", "flux-system")],
                    ManagedSet([KustomizationWith([InventoryEntry(Some(EncodeEntryId("teamA", "web-release")), Some("v2"))])])) == []
    ensures |Orphans([LabelledRelease("teamA", "web-release", "apps", "flux-system")], ManagedSet([KustomizationWith([])]))| == 1
  {
    ListedReleaseIsNotOrphan("teamA", "web-release", "apps", "flux-system", Some("v2"));
    UnlistedReleaseIsOrphan("teamA", "web-release", "apps", "flux-system");
  }

  /** A release without the labels is never reported, whatever is managed. */
  lemma ReleaseWithoutLabelsIsNotOrphan(ns: string, name: string, managed: set<string>)
    ensures Orphans([HelmRelease(Some(Metadata(Some(name), Some(ns), None)))], managed) == []
  {
    assert [HelmRelease(Some(Metadata(Some(name), Some(ns), None)))][..0] == [];
  }
}
