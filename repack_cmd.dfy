/** The repack command's run: select the packages to repack, prune the
    in-memory document to the requested architecture class, narrow the work
    set to the partial-run subset and keep the packer's non-empty results
    (src/debsbom/commands/repack.py, `RepackCmd.run`). */
module RepackCommand {
  import opened Common
  import S = SpdxModel
  import C = CdxModel

  /** A bom-ref or package URL that names a source package. */
  predicate IsSourceRef(ref: string) {
    Contains(ref, ArchSource)
  }

  // ---------------------------------------------------------------------
  // CycloneDX: components and dependency entries

  predicate IsSourceComponent(c: C.Component) {
    IsSourceRef(c.bomRef)
  }

  predicate IsBinaryComponent(c: C.Component) {
    !IsSourceRef(c.bomRef)
  }

  predicate IsBinaryDependency(d: C.Dependency) {
    !IsSourceRef(d.ref)
  }

  /** A dependency entry with the nested entries that name a source package
      removed; entries nested deeper are left as they are. */
  function PruneNested(d: C.Dependency): (r: C.Dependency)
    ensures r.ref == d.ref
    ensures forall n :: n in r.dependsOn <==> n in d.dependsOn && !IsSourceRef(n.ref)
    ensures IsSubsequence(r.dependsOn, d.dependsOn)
  {
    d.(dependsOn := Filter(d.dependsOn, IsBinaryDependency))
  }

  /** `PruneNested` applied to every entry, in order. */
  function PruneEach(deps: seq<C.Dependency>): (r: seq<C.Dependency>)
    ensures |r| == |deps|
    ensures forall k :: 0 <= k < |deps| ==> r[k] == PruneNested(deps[k])
    ensures forall d :: d in r <==> exists e :: e in deps && d == PruneNested(e)
  {
    if deps == [] then []
    else
      assert deps == [deps[0]] + deps[1..];
      [PruneNested(deps[0])] + PruneEach(deps[1..])
  }

  lemma {:induction false} SubsequenceOfItself<T>(s: seq<T>)
    ensures IsSubsequence(s, s)
    decreases |s|
  {
    if s != [] {
      SubsequenceOfItself(s[1..]);
    }
  }

  /** The components left by the filtering branch of run. */
  function FilterComponents(components: seq<C.Component>, sources: bool, binaries: bool): (r: seq<C.Component>)
    ensures sources == binaries ==> r == components
    ensures sources && !binaries ==>
      forall c :: c in r <==> c in components && IsSourceRef(c.bomRef)
    ensures binaries && !sources ==>
      forall c :: c in r <==> c in components && !IsSourceRef(c.bomRef)
    ensures sources != binaries ==>
      forall c :: multiset(r)[c] == if IsSourceRef(c.bomRef) == sources then multiset(components)[c] else 0
    ensures IsSubsequence(r, components)
  {
    SubsequenceOfItself(components);
    if sources && binaries then components
    else if sources then Filter(components, IsSourceComponent)
    else if binaries then Filter(components, IsBinaryComponent)
    else components
  }

  /** The dependency entries left by the filtering branch of run. */
  function FilterDependencies(dependencies: seq<C.Dependency>, sources: bool, binaries: bool): (r: seq<C.Dependency>)
    ensures sources == binaries ==> r == dependencies
    ensures sources && !binaries ==> r == []
    ensures binaries && !sources ==>
      forall d :: d in r <==> exists e :: e in dependencies && !IsSourceRef(e.ref) && d == PruneNested(e)
    ensures binaries && !sources ==>
      forall d :: d in r ==> !IsSourceRef(d.ref) && forall n :: n in d.dependsOn ==> !IsSourceRef(n.ref)
    ensures binaries && !sources ==> exists kept: seq<C.Dependency> ::
      IsSubsequence(kept, dependencies) &&
      (forall e: C.Dependency :: multiset(kept)[e] == if IsSourceRef(e.ref) then 0 else multiset(dependencies)[e]) &&
      r == PruneEach(kept)
  {
    if sources && binaries then dependencies
    else if sources then []
    else if binaries then
      BinaryEntriesKept(dependencies);
      PruneEach(Filter(dependencies, IsBinaryDependency))
    else dependencies
  }

  /** The entries kept before pruning: every entry whose ref lacks the
      marker, as often as it occurs, in input order. */
  lemma BinaryEntriesKept(dependencies: seq<C.Dependency>)
    ensures var kept := Filter(dependencies, IsBinaryDependency);
      IsSubsequence(kept, dependencies) &&
      forall e: C.Dependency :: multiset(kept)[e] == if IsSourceRef(e.ref) then 0 else multiset(dependencies)[e]
  {
    var kept := Filter(dependencies, IsBinaryDependency);
    forall e: C.Dependency
      ensures multiset(kept)[e] == if IsSourceRef(e.ref) then 0 else multiset(dependencies)[e]
    {
      assert IsBinaryDependency(e) == !IsSourceRef(e.ref);
    }
  }

  /** With binaries only, an edge that names a component of the input names
      one that survived: pruning leaves no dangling dependency. */
  lemma CdxNoDanglingEdges(components: seq<C.Component>, dependencies: seq<C.Dependency>, d: C.Dependency, ref: string, c: C.Component)
    requires d in FilterDependencies(dependencies, false, true)
    requires ref == d.ref || exists n :: n in d.dependsOn && n.ref == ref
    requires c in components && c.bomRef == ref
    ensures c in FilterComponents(components, false, true)
  {
  }

  /** Lines 55-80 of run, on a CycloneDX bill of materials. */
  method FilterCdxDocument(bom: C.Bom, sources: bool, binaries: bool)
    modifies bom
    ensures bom.components == FilterComponents(old(bom.components), sources, binaries)
    ensures bom.dependencies == FilterDependencies(old(bom.dependencies), sources, binaries)
  {
    if !(sources && binaries) {
      if sources {
        bom.components := Filter(bom.components, IsSourceComponent);
        bom.dependencies := [];
      } else if binaries {
        bom.components := Filter(bom.components, IsBinaryComponent);
        bom.dependencies := Filter(bom.dependencies, IsBinaryDependency);
        ghost var kept := bom.dependencies;
        for i := 0 to |bom.dependencies|
          invariant |bom.dependencies| == |kept|
          invariant forall k :: 0 <= k < i ==> bom.dependencies[k] == PruneNested(kept[k])
          invariant forall k :: i <= k < |kept| ==> bom.dependencies[k] == kept[k]
          invariant bom.components == FilterComponents(old(bom.components), sources, binaries)
        {
          var dep := bom.dependencies[i];
          bom.dependencies := bom.dependencies[i := dep.(dependsOn := Filter(dep.dependsOn, IsBinaryDependency))];
        }
      }
    }
  }

  // ---------------------------------------------------------------------
  // SPDX: packages and relationships

  predicate IsPurlRef(r: S.ExternalRef) {
    r.referenceType == S.PurlType
  }

  /** The `i`-th external reference of the package is a purl reference. */
  predicate PurlRefAt(p: S.SpdxPackage, i: int) {
    0 <= i < |p.externalReferences| && IsPurlRef(p.externalReferences[i])
  }

  /** Python's `any((ArchSource in ref.locator) == source for ref in refs
      if ref.reference_type == "purl")`. */
  predicate AnyPurlRef(refs: seq<S.ExternalRef>, source: bool) {
    exists i :: 0 <= i < |refs| && IsPurlRef(refs[i]) && IsSourceRef(refs[i].locator) == source
  }

  predicate HasSourcePurl(p: S.SpdxPackage) {
    AnyPurlRef(p.externalReferences, true)
  }

  predicate HasBinaryPurl(p: S.SpdxPackage) {
    AnyPurlRef(p.externalReferences, false)
  }

  /** The packages left by the filtering branch of run. */
  function FilterPackages(packages: seq<S.SpdxPackage>, sources: bool, binaries: bool): (r: seq<S.SpdxPackage>)
    ensures sources == binaries ==> r == packages
    ensures sources && !binaries ==> forall p :: p in r <==>
      (p in packages && exists i :: PurlRefAt(p, i) && IsSourceRef(p.externalReferences[i].locator))
    ensures binaries && !sources ==> forall p :: p in r <==>
      (p in packages && exists i :: PurlRefAt(p, i) && !IsSourceRef(p.externalReferences[i].locator))
    ensures sources && !binaries ==> forall p :: multiset(r)[p] == if HasSourcePurl(p) then multiset(packages)[p] else 0
    ensures binaries && !sources ==> forall p :: multiset(r)[p] == if HasBinaryPurl(p) then multiset(packages)[p] else 0
    ensures IsSubsequence(r, packages)
  {
    SubsequenceOfItself(packages);
    if sources && binaries then packages
    else if sources then Filter(packages, HasSourcePurl)
    else if binaries then Filter(packages, HasBinaryPurl)
    else packages
  }

  /** A package without any purl reference is removed by either filter. */
  lemma NoPurlSurvivesNeither(p: S.SpdxPackage)
    requires forall r :: r in p.externalReferences ==> !IsPurlRef(r)
    ensures p !in FilterPackages([p], true, false) && p !in FilterPackages([p], false, true)
  {
  }

  /** Both endpoints of the relationship are among the given ids. */
  function Between(ids: set<string>): S.Relationship -> bool {
    (rel: S.Relationship) => rel.spdxElementId in ids && rel.relatedSpdxElementId in ids
  }

  /** The relationships left by the filtering branch of run, given the
      packages that survived it. */
  function FilterRelationships(relationships: seq<S.Relationship>, survivors: seq<S.SpdxPackage>, sources: bool, binaries: bool): (r: seq<S.Relationship>)
    ensures sources == binaries ==> r == relationships
    ensures sources && !binaries ==> r == []
    ensures binaries && !sources ==> forall rel :: rel in r <==>
      (rel in relationships &&
       (exists p :: p in survivors && p.spdxId == rel.spdxElementId) &&
       (exists q :: q in survivors && q.spdxId == rel.relatedSpdxElementId))
    ensures binaries && !sources ==>
      forall rel :: multiset(r)[rel] == if Between(S.Ids(survivors))(rel) then multiset(relationships)[rel] else 0
    ensures IsSubsequence(r, relationships)
  {
    SubsequenceOfItself(relationships);
    if sources && binaries then relationships
    else if sources then []
    else if binaries then Filter(relationships, Between(S.Ids(survivors)))
    else relationships
  }

  /** Lines 81-109 of run, on an SPDX document. */
  method FilterSpdxDocument(doc: S.Document, sources: bool, binaries: bool)
    modifies doc
    ensures doc.packages == FilterPackages(old(doc.packages), sources, binaries)
    ensures doc.relationships == FilterRelationships(old(doc.relationships), doc.packages, sources, binaries)
  {
    if !(sources && binaries) {
      if sources {
        doc.packages := Filter(doc.packages, HasSourcePurl);
        doc.relationships := [];
      } else if binaries {
        doc.packages := Filter(doc.packages, HasBinaryPurl);
        var binaryIds := set p | p in doc.packages :: p.spdxId;
        doc.relationships := Filter(doc.relationships, Between(binaryIds));
      }
    }
  }

  // ---------------------------------------------------------------------
  // Work set and packer results

  /** The source/binary predicate of the download command, applied with the
      run's flags. */
  function Selected(filterPkg: (Package, bool, bool) -> bool, sources: bool, binaries: bool): Package -> bool {
    p => filterPkg(p, sources, binaries)
  }

  function InSubset(subset: set<Package>): Package -> bool {
    p => p in subset
  }

  /** The packages handed to the packer: an empty or absent subset is no
      restriction, a non-empty one keeps its members, in order. */
  function WorkSet(filtered: seq<Package>, subset: Option<set<Package>>): (r: seq<Package>)
    ensures subset == None || subset == Some({}) ==> r == filtered
    ensures subset.Some? && subset.value != {} ==>
      forall p :: p in r <==> p in filtered && p in subset.value
    ensures subset.Some? && subset.value != {} ==>
      forall p :: multiset(r)[p] == if p in subset.value then multiset(filtered)[p] else 0
    ensures IsSubsequence(r, filtered)
  {
    SubsequenceOfItself(filtered);
    if subset.Some? && subset.value != {} then Filter(filtered, InSubset(subset.value))
    else filtered
  }

  /** The packer did not skip the package. */
  function Produced(repack: Package -> Option<Package>): Package -> bool {
    p => repack(p).Some?
  }

  /** The packer's results with the skipped packages dropped, in order: the
      `k`-th result is the one for the `k`-th package the packer did not skip. */
  function Repacked(work: seq<Package>, repack: Package -> Option<Package>): (r: seq<Package>)
    ensures |r| <= |work|
    ensures forall q :: q in r <==> exists p :: p in work && repack(p) == Some(q)
    ensures |r| == |Filter(work, Produced(repack))|
    ensures forall k :: 0 <= k < |r| ==> repack(Filter(work, Produced(repack))[k]) == Some(r[k])
  {
    if work == [] then []
    else match repack(work[0])
      case Some(q) =>
        assert Filter(work, Produced(repack)) == [work[0]] + Filter(work[1..], Produced(repack));
        [q] + Repacked(work[1..], repack)
      case None =>
        assert Filter(work, Produced(repack)) == Filter(work[1..], Produced(repack));
        Repacked(work[1..], repack)
  }

  /** The document a run works on: a CycloneDX bill of materials or an SPDX
      document. */
  datatype Sbom = CycloneDX(bom: C.Bom) | Spdx(document: S.Document)
  {
    function Target(): object {
      match this
      case CycloneDX(bom) => bom
      case Spdx(document) => document
    }
  }

  /** Lines 52-121 of run: filter the resolver's packages and the document,
      then repack the work set and return the results that reach
      `rewrite_sbom`. */
  method Run(
    sbom: Sbom,
    resolved: seq<Package>,
    sources: bool,
    binaries: bool,
    subset: Option<set<Package>>,
    filterPkg: (Package, bool, bool) -> bool,
    repack: Package -> Option<Package>)
    returns (repacked: seq<Package>)
    modifies sbom.Target()
    ensures sbom.CycloneDX? ==>
      sbom.bom.components == FilterComponents(old(sbom.bom.components), sources, binaries) &&
      sbom.bom.dependencies == FilterDependencies(old(sbom.bom.dependencies), sources, binaries)
    ensures sbom.Spdx? ==>
      sbom.document.packages == FilterPackages(old(sbom.document.packages), sources, binaries) &&
      sbom.document.relationships == FilterRelationships(old(sbom.document.relationships), sbom.document.packages, sources, binaries)
    ensures repacked == Repacked(WorkSet(Filter(resolved, Selected(filterPkg, sources, binaries)), subset), repack)
  {
    var filtered := Filter(resolved, Selected(filterPkg, sources, binaries));
    match sbom {
      case CycloneDX(bom) => FilterCdxDocument(bom, sources, binaries);
      case Spdx(document) => FilterSpdxDocument(document, sources, binaries);
    }
    var pkgs := filtered;
    if subset.Some? && subset.value != {} {
      pkgs := Filter(filtered, InSubset(subset.value));
    }
    repacked := Repacked(pkgs, repack);
  }
}
