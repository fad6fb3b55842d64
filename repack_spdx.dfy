/** The standard-bom transformer for SPDX documents
    (src/debsbom/repack/spdx.py): index the Debian packages of the document by
    package URL, then record each repacked package's local copy and checksums
    on its document package, backfilling descriptive fields of source
    packages. */
module RepackSpdx {
  import opened Common
  import opened SpdxModel

  /** The foreign helpers the transformer relies on, with no behaviour
      assumed beyond their signatures: `SpdxPackageResolver.is_debian_pkg`,
      `spdx_package_repr` and `checksum_to_spdx`. */
  datatype Collaborators = Collaborators(
    isDebianPkg: SpdxPackage -> bool,
    packageRepr: Package -> SpdxPackage,
    checksumToSpdx: string -> string)

  /** The `i`-th reference is a purl reference and none before it is. */
  predicate FirstPurlAt(refs: seq<ExternalRef>, i: int) {
    0 <= i < |refs| && refs[i].referenceType == PurlType &&
    forall j :: 0 <= j < i ==> refs[j].referenceType != PurlType
  }

  /** The locator of the first purl reference; `None` where Python reads
      `.locator` off `None` and raises. */
  function FirstPurlLocator(refs: seq<ExternalRef>): (r: Option<string>)
    ensures r.None? <==> forall i :: 0 <= i < |refs| ==> refs[i].referenceType != PurlType
    ensures r.Some? ==> exists i :: FirstPurlAt(refs, i) && refs[i].locator == r.value
  {
    if refs == [] then None
    else if refs[0].referenceType == PurlType then
      assert FirstPurlAt(refs, 0);
      Some(refs[0].locator)
    else
      var r := FirstPurlLocator(refs[1..]);
      if r.Some? then
        var i :| FirstPurlAt(refs[1..], i) && refs[1..][i].locator == r.value;
        assert FirstPurlAt(refs, i + 1);
        r
      else r
  }

  /** `purl_from_spdx`. */
  function PurlFromSpdx(p: SpdxPackage): Option<string> {
    FirstPurlLocator(p.externalReferences)
  }

  /** The `pkgs_by_purl` dictionary built in `__init__`, as positions in the
      package list; `None` when a Debian package has no purl reference (the
      constructor raises). A later package with the same purl overwrites an
      earlier one. */
  function IndexByPurl(packages: seq<SpdxPackage>, isDebian: SpdxPackage -> bool): (r: Option<map<string, nat>>)
    ensures r.None? <==> exists i :: 0 <= i < |packages| && isDebian(packages[i]) && PurlFromSpdx(packages[i]).None?
    ensures r.Some? ==> forall purl :: purl in r.value ==>
      r.value[purl] < |packages| && isDebian(packages[r.value[purl]]) && PurlFromSpdx(packages[r.value[purl]]) == Some(purl)
    ensures r.Some? ==> forall i :: 0 <= i < |packages| && isDebian(packages[i]) ==>
      PurlFromSpdx(packages[i]).Some? && PurlFromSpdx(packages[i]).value in r.value &&
      i <= r.value[PurlFromSpdx(packages[i]).value]
    decreases |packages|
  {
    if packages == [] then Some(map[])
    else
      var n := |packages| - 1;
      var prefix := IndexByPurl(packages[..n], isDebian);
      assert forall i :: 0 <= i < n ==> packages[..n][i] == packages[i];
      if !isDebian(packages[n]) then prefix
      else match PurlFromSpdx(packages[n])
        case None => None
        case Some(purl) => if prefix.None? then None else Some(prefix.value[purl := n])
  }

  /** `_enhance`: fold in the synthesized package's supplier, homepage and
      summary where the document package has a gap. */
  function Enhance(pkg: SpdxPackage, synth: SpdxPackage): (r: SpdxPackage)
    ensures pkg.supplier != NoAssertion ==> r.supplier == pkg.supplier
    ensures pkg.supplier == NoAssertion ==> r.supplier == synth.supplier
    ensures !pkg.homepage.Falsy() ==> r.homepage == pkg.homepage
    ensures pkg.homepage.Falsy() ==> r.homepage == synth.homepage
    ensures !pkg.summary.Falsy() ==> r.summary == pkg.summary
    ensures pkg.summary.Falsy() ==> r.summary == synth.summary
    ensures r.(supplier := pkg.supplier, homepage := pkg.homepage, summary := pkg.summary) == pkg
  {
    var withSupplier := if pkg.supplier == NoAssertion then pkg.(supplier := synth.supplier) else pkg;
    var withHomepage := if withSupplier.homepage.Falsy() then withSupplier.(homepage := synth.homepage) else withSupplier;
    if withHomepage.summary.Falsy() then withHomepage.(summary := synth.summary) else withHomepage
  }

  /** Backfilling a second time from the same synthesized package changes nothing. */
  lemma EnhanceIdempotent(pkg: SpdxPackage, synth: SpdxPackage)
    ensures Enhance(Enhance(pkg, synth), synth) == Enhance(pkg, synth)
  {
  }

  /** The distribution reference recorded for a repacked package. */
  function DistributionRef(p: Package): (r: ExternalRef)
    ensures r.category == PackageManager && r.referenceType == DistributionType && r.locator == p.locator
  {
    ExternalRef(PackageManager, DistributionType, p.locator)
  }

  /** One SPDX checksum per (algorithm, digest) entry of the package. */
  function SpdxChecksums(checksums: seq<(string, string)>, toSpdx: string -> string): (r: seq<Checksum>)
    ensures |r| == |checksums|
    ensures forall i :: 0 <= i < |r| ==> r[i] == Checksum(toSpdx(checksums[i].0), checksums[i].1)
  {
    seq(|checksums|, i requires 0 <= i < |checksums| => Checksum(toSpdx(checksums[i].0), checksums[i].1))
  }

  /** One iteration of `transform` on the document package found for `p`. */
  function Annotate(pkg: SpdxPackage, p: Package, c: Collaborators): (r: SpdxPackage)
    ensures r.externalReferences == pkg.externalReferences + [DistributionRef(p)]
    ensures r.checksums == SpdxChecksums(p.checksums, c.checksumToSpdx)
    ensures r.spdxId == pkg.spdxId && r.name == pkg.name
    ensures !p.isSource ==> r.supplier == pkg.supplier && r.homepage == pkg.homepage && r.summary == pkg.summary
    ensures p.isSource ==> var e := Enhance(pkg, c.packageRepr(p));
      r.supplier == e.supplier && r.homepage == e.homepage && r.summary == e.summary
  {
    var enhanced := if p.isSource then Enhance(pkg, c.packageRepr(p)) else pkg;
    enhanced.(externalReferences := enhanced.externalReferences + [DistributionRef(p)],
              checksums := SpdxChecksums(p.checksums, c.checksumToSpdx))
  }

  /** How `transform` ends: normally, or with the `KeyError` of a package
      URL missing from the index. */
  datatype Outcome = Done | KeyError(purl: string)

  /** The document packages after a `transform` call, and how it ended. */
  datatype TransformRun = TransformRun(packages: seq<SpdxPackage>, outcome: Outcome)

  predicate IndexInRange(index: map<string, nat>, n: nat) {
    forall purl :: purl in index ==> index[purl] < n
  }

  /** `transform` over the document packages: each input package updates the
      package its purl indexes; a purl missing from the index stops the run
      with the updates made so far in place. */
  function Transformed(packages: seq<SpdxPackage>, index: map<string, nat>, input: seq<Package>, c: Collaborators): (r: TransformRun)
    requires IndexInRange(index, |packages|)
    ensures |r.packages| == |packages|
    decreases |input|
  {
    if input == [] then TransformRun(packages, Done)
    else if input[0].purl !in index then TransformRun(packages, KeyError(input[0].purl))
    else
      var i := index[input[0].purl];
      Transformed(packages[i := Annotate(packages[i], input[0], c)], index, input[1..], c)
  }

  /** The input package targets document position `j`. */
  predicate Targets(p: Package, index: map<string, nat>, j: int) {
    p.purl in index && index[p.purl] == j
  }

  /** The run fails exactly when some input purl is not indexed; it then
      names the first such purl and keeps the updates of the packages before
      it. */
  lemma {:induction false} TransformedOutcome(packages: seq<SpdxPackage>, index: map<string, nat>, input: seq<Package>, c: Collaborators)
    requires IndexInRange(index, |packages|)
    ensures Transformed(packages, index, input, c).outcome == Done <==> forall k :: 0 <= k < |input| ==> input[k].purl in index
    ensures Transformed(packages, index, input, c).outcome.KeyError? ==> exists n ::
      0 <= n < |input| && input[n].purl !in index &&
      Transformed(packages, index, input, c).outcome.purl == input[n].purl &&
      (forall k :: 0 <= k < n ==> input[k].purl in index) &&
      Transformed(packages, index, input, c).packages == Transformed(packages, index, input[..n], c).packages
    decreases |input|
  {
    if input == [] {
    } else if input[0].purl !in index {
      assert input[..0] == [];
    } else {
      var i := index[input[0].purl];
      var next := packages[i := Annotate(packages[i], input[0], c)];
      TransformedOutcome(next, index, input[1..], c);
      var r := Transformed(packages, index, input, c);
      assert r == Transformed(next, index, input[1..], c);
      forall k | 0 <= k < |input| - 1 ensures input[1..][k] == input[k + 1] { }
      if r.outcome.KeyError? {
        var n :| 0 <= n < |input[1..]| && input[1..][n].purl !in index &&
          r.outcome.purl == input[1..][n].purl &&
          (forall k :: 0 <= k < n ==> input[1..][k].purl in index) &&
          r.packages == Transformed(next, index, input[1..][..n], c).packages;
        var prefix := input[..n + 1];
        PrefixShift(input, n);
        assert prefix[0] == input[0] && prefix != [];
        assert Transformed(packages, index, prefix, c) == Transformed(next, index, input[1..][..n], c);
        assert forall k :: 0 <= k < n + 1 ==> input[k].purl in index by {
          forall k | 0 <= k < n + 1 ensures input[k].purl in index {
            if k > 0 { assert input[k] == input[1..][k - 1]; }
          }
        }
        assert input[n + 1].purl !in index && r.outcome.purl == input[n + 1].purl;
      }
    }
  }

  lemma PrefixShift<T>(s: seq<T>, n: nat)
    requires n < |s|
    ensures s[..n + 1][1..] == s[1..][..n]
  {
    assert |s[..n + 1][1..]| == n == |s[1..][..n]|;
    forall k | 0 <= k < n ensures s[..n + 1][1..][k] == s[1..][..n][k] { }
  }

  /** Packages that no input package targets are not modified. */
  lemma {:induction false} TransformedUntouched(packages: seq<SpdxPackage>, index: map<string, nat>, input: seq<Package>, c: Collaborators, j: int)
    requires IndexInRange(index, |packages|)
    requires 0 <= j < |packages|
    requires forall k :: 0 <= k < |input| ==> !Targets(input[k], index, j)
    ensures Transformed(packages, index, input, c).packages[j] == packages[j]
    decreases |input|
  {
    if input != [] && input[0].purl in index {
      var i := index[input[0].purl];
      assert i != j by { assert !Targets(input[0], index, j); }
      forall k | 0 <= k < |input[1..]| ensures !Targets(input[1..][k], index, j) {
        assert input[1..][k] == input[k + 1];
      }
      TransformedUntouched(packages[i := Annotate(packages[i], input[0], c)], index, input[1..], c, j);
    }
  }

  /** `Targets` as a predicate on input packages. */
  function Targeting(index: map<string, nat>, j: int): Package -> bool {
    p => Targets(p, index, j)
  }

  /** The distribution references that the input packages targeting `j`
      append: one per such package, in input order. */
  function DistributionRefsFor(input: seq<Package>, index: map<string, nat>, j: int): (r: seq<ExternalRef>)
    ensures |r| <= |input|
    ensures forall x :: x in r ==> exists p :: p in input && Targets(p, index, j) && x == DistributionRef(p)
  {
    if input == [] then []
    else (if Targets(input[0], index, j) then [DistributionRef(input[0])] else []) + DistributionRefsFor(input[1..], index, j)
  }

  /** Each input package targeting `j` contributes exactly one distribution
      reference, in input order. */
  lemma {:induction false} DistributionRefsOnePerTarget(input: seq<Package>, index: map<string, nat>, j: int)
    ensures |DistributionRefsFor(input, index, j)| == |Filter(input, Targeting(index, j))|
    ensures forall k :: 0 <= k < |DistributionRefsFor(input, index, j)| ==>
      DistributionRefsFor(input, index, j)[k] == DistributionRef(Filter(input, Targeting(index, j))[k])
    decreases |input|
  {
    if input != [] {
      var refs := DistributionRefsFor(input, index, j);
      var rest := DistributionRefsFor(input[1..], index, j);
      var targeting := Filter(input, Targeting(index, j));
      var later := Filter(input[1..], Targeting(index, j));
      DistributionRefsOnePerTarget(input[1..], index, j);
      DistributionRefsStep(input, index, j);
      FilterStep(input, Targeting(index, j));
      if Targets(input[0], index, j) {
        assert refs == [DistributionRef(input[0])] + rest && targeting == [input[0]] + later;
        forall k | 0 < k < |refs| ensures refs[k] == DistributionRef(targeting[k]) {
          assert refs[k] == rest[k - 1] && targeting[k] == later[k - 1];
        }
      } else {
        assert refs == rest && targeting == later;
      }
    }
  }

  lemma DistributionRefsStep(input: seq<Package>, index: map<string, nat>, j: int)
    requires input != []
    ensures Targets(input[0], index, j) ==>
      DistributionRefsFor(input, index, j) == [DistributionRef(input[0])] + DistributionRefsFor(input[1..], index, j)
    ensures !Targets(input[0], index, j) ==>
      DistributionRefsFor(input, index, j) == DistributionRefsFor(input[1..], index, j)
  {
  }

  /** A run in which every purl is indexed appends to each package exactly the
      distribution references of the input packages targeting it, after all
      of its earlier references. */
  lemma {:induction false} TransformedReferences(packages: seq<SpdxPackage>, index: map<string, nat>, input: seq<Package>, c: Collaborators, j: int)
    requires IndexInRange(index, |packages|)
    requires 0 <= j < |packages|
    requires forall k :: 0 <= k < |input| ==> input[k].purl in index
    ensures Transformed(packages, index, input, c).packages[j].externalReferences ==
      packages[j].externalReferences + DistributionRefsFor(input, index, j)
    decreases |input|
  {
    if input != [] {
      var i := index[input[0].purl];
      var next := packages[i := Annotate(packages[i], input[0], c)];
      forall k | 0 <= k < |input[1..]| ensures input[1..][k].purl in index {
        assert input[1..][k] == input[k + 1];
      }
      TransformedReferences(next, index, input[1..], c, j);
      var rest := DistributionRefsFor(input[1..], index, j);
      assert Transformed(packages, index, input, c) == Transformed(next, index, input[1..], c);
      DistributionRefsStep(input, index, j);
      if i == j {
        assert Targets(input[0], index, j);
        assert next[j].externalReferences == packages[j].externalReferences + [DistributionRef(input[0])];
        assert packages[j].externalReferences + [DistributionRef(input[0])] + rest ==
          packages[j].externalReferences + ([DistributionRef(input[0])] + rest);
      } else {
        assert !Targets(input[0], index, j);
        assert next[j] == packages[j];
      }
    }
  }

  /** The `k`-th input package targets `j` and no later one does. */
  predicate LastTargetingAt(input: seq<Package>, index: map<string, nat>, j: int, k: int) {
    0 <= k < |input| && Targets(input[k], index, j) &&
    forall m :: k < m < |input| ==> !Targets(input[m], index, j)
  }

  /** The last input package targeting `j`, if any. */
  function LastTargeting(input: seq<Package>, index: map<string, nat>, j: int): (r: Option<Package>)
    ensures r.Some? ==> r.value in input && Targets(r.value, index, j)
    ensures r.None? ==> forall k :: 0 <= k < |input| ==> !Targets(input[k], index, j)
    ensures r.Some? ==> exists k :: LastTargetingAt(input, index, j, k) && input[k] == r.value
  {
    if input == [] then None
    else
      var later := LastTargeting(input[1..], index, j);
      assert forall k :: 1 <= k < |input| ==> input[k] == input[1..][k - 1];
      if later.Some? then
        var k :| LastTargetingAt(input[1..], index, j, k) && input[1..][k] == later.value;
        assert LastTargetingAt(input, index, j, k + 1);
        later
      else if Targets(input[0], index, j) then
        assert LastTargetingAt(input, index, j, 0);
        Some(input[0])
      else None
  }

  /** A run in which every purl is indexed leaves each package with exactly
      the checksums of the last input package targeting it; earlier checksums
      are discarded, and packages no one targets keep theirs. */
  lemma {:induction false} TransformedChecksums(packages: seq<SpdxPackage>, index: map<string, nat>, input: seq<Package>, c: Collaborators, j: int)
    requires IndexInRange(index, |packages|)
    requires 0 <= j < |packages|
    requires forall k :: 0 <= k < |input| ==> input[k].purl in index
    ensures LastTargeting(input, index, j).None? ==>
      Transformed(packages, index, input, c).packages[j].checksums == packages[j].checksums
    ensures LastTargeting(input, index, j).Some? ==>
      Transformed(packages, index, input, c).packages[j].checksums ==
      SpdxChecksums(LastTargeting(input, index, j).value.checksums, c.checksumToSpdx)
    decreases |input|
  {
    if input != [] {
      var i := index[input[0].purl];
      var next := packages[i := Annotate(packages[i], input[0], c)];
      forall k | 0 <= k < |input[1..]| ensures input[1..][k].purl in index {
        assert input[1..][k] == input[k + 1];
      }
      TransformedChecksums(next, index, input[1..], c, j);
    }
  }

  /** Across a whole run (failed or not): a supplier other than NOASSERTION
      and a non-empty homepage or summary are never overwritten, ids and
      names never change, and a package targeted by no source package keeps
      all three descriptive fields. */
  lemma {:induction false} TransformedBackfillOnly(packages: seq<SpdxPackage>, index: map<string, nat>, input: seq<Package>, c: Collaborators, j: int)
    requires IndexInRange(index, |packages|)
    requires 0 <= j < |packages|
    ensures packages[j].supplier != NoAssertion ==>
      Transformed(packages, index, input, c).packages[j].supplier == packages[j].supplier
    ensures !packages[j].homepage.Falsy() ==>
      Transformed(packages, index, input, c).packages[j].homepage == packages[j].homepage
    ensures !packages[j].summary.Falsy() ==>
      Transformed(packages, index, input, c).packages[j].summary == packages[j].summary
    ensures Transformed(packages, index, input, c).packages[j].spdxId == packages[j].spdxId
    ensures Transformed(packages, index, input, c).packages[j].name == packages[j].name
    ensures (forall k :: 0 <= k < |input| && input[k].isSource ==> !Targets(input[k], index, j)) ==>
      var q := Transformed(packages, index, input, c).packages[j];
      q.supplier == packages[j].supplier && q.homepage == packages[j].homepage && q.summary == packages[j].summary
    decreases |input|
  {
    if input != [] && input[0].purl in index {
      var i := index[input[0].purl];
      var next := packages[i := Annotate(packages[i], input[0], c)];
      TransformedBackfillOnly(next, index, input[1..], c, j);
      if forall k :: 0 <= k < |input| && input[k].isSource ==> !Targets(input[k], index, j) {
        forall k | 0 <= k < |input[1..]| && input[1..][k].isSource ensures !Targets(input[1..][k], index, j) {
          assert input[1..][k] == input[k + 1];
        }
      }
    }
  }

  /** A gap is filled: once a source package that targets `j` is reached
      (every purl up to it indexed), a NOASSERTION supplier and an empty
      homepage or summary are replaced whenever its synthesized package has
      that field, and later packages do not reopen the gap. */
  lemma {:induction false} TransformedFillsGaps(packages: seq<SpdxPackage>, index: map<string, nat>, input: seq<Package>, c: Collaborators, j: int, k: int)
    requires IndexInRange(index, |packages|)
    requires 0 <= j < |packages|
    requires 0 <= k < |input| && input[k].isSource && Targets(input[k], index, j)
    requires forall m :: 0 <= m <= k ==> input[m].purl in index
    ensures packages[j].supplier == NoAssertion && c.packageRepr(input[k]).supplier != NoAssertion ==>
      Transformed(packages, index, input, c).packages[j].supplier != NoAssertion
    ensures packages[j].homepage.Falsy() && !c.packageRepr(input[k]).homepage.Falsy() ==>
      !Transformed(packages, index, input, c).packages[j].homepage.Falsy()
    ensures packages[j].summary.Falsy() && !c.packageRepr(input[k]).summary.Falsy() ==>
      !Transformed(packages, index, input, c).packages[j].summary.Falsy()
    decreases |input|
  {
    var i := index[input[0].purl];
    var next := packages[i := Annotate(packages[i], input[0], c)];
    assert Transformed(packages, index, input, c) == Transformed(next, index, input[1..], c);
    TransformedBackfillOnly(next, index, input[1..], c, j);
    if k > 0 {
      assert input[1..][k - 1] == input[k];
      forall m | 0 <= m <= k - 1 ensures input[1..][m].purl in index {
        assert input[1..][m] == input[m + 1];
      }
      TransformedFillsGaps(next, index, input[1..], c, j, k - 1);
    }
  }

  /** `StandardBomTransformerSPDX`: the document it annotates in place and
      the purl index built when it is created. */
  class Transformer {
    const document: Document
    const collaborators: Collaborators
    const pkgsByPurl: map<string, nat>

    /** Every indexed position is a package of the document. */
    ghost predicate Valid()
      reads this, document
    {
      IndexInRange(pkgsByPurl, |document.packages|)
    }

    /** `__init__`; Python raises when a Debian package has no purl reference,
        so only a document whose index exists can be wrapped. */
    constructor (bom: Document, c: Collaborators)
      requires IndexByPurl(bom.packages, c.isDebianPkg).Some?
      ensures document == bom && collaborators == c
      ensures pkgsByPurl == IndexByPurl(bom.packages, c.isDebianPkg).value
      ensures Valid()
    {
      document := bom;
      collaborators := c;
      pkgsByPurl := IndexByPurl(bom.packages, c.isDebianPkg).value;
    }

    /** `transform`: annotate the document package of each repacked package,
        in order; a purl missing from the index ends the call with KeyError. */
    method Transform(packages: seq<Package>) returns (outcome: Outcome)
      requires Valid()
      modifies document
      ensures Valid()
      ensures TransformRun(document.packages, outcome) ==
        Transformed(old(document.packages), pkgsByPurl, packages, collaborators)
      ensures document.relationships == old(document.relationships)
    {
      var k := 0;
      while k < |packages|
        invariant 0 <= k <= |packages|
        invariant Valid()
        invariant Transformed(document.packages, pkgsByPurl, packages[k..], collaborators) ==
          Transformed(old(document.packages), pkgsByPurl, packages, collaborators)
        invariant document.relationships == old(document.relationships)
      {
        var p := packages[k];
        assert packages[k..][0] == p && packages[k..][1..] == packages[k + 1..];
        if p.purl !in pkgsByPurl {
          return KeyError(p.purl);
        }
        var i := pkgsByPurl[p.purl];
        var spdxPkg := document.packages[i];
        if p.isSource {
          spdxPkg := Enhance(spdxPkg, collaborators.packageRepr(p));
        }
        spdxPkg := spdxPkg.(externalReferences := spdxPkg.externalReferences + [DistributionRef(p)]);
        spdxPkg := spdxPkg.(checksums := SpdxChecksums(p.checksums, collaborators.checksumToSpdx));
        document.packages := document.packages[i := spdxPkg];
        k := k + 1;
      }
      assert packages[k..] == [];
      return Done;
    }
  }
}
