/** The standard-bom transformer for CycloneDX documents
    (src/debsbom/repack/cdx.py): for each repacked package found in the bill
    of materials, backfill descriptive fields of source components and add a
    distribution reference to the local copy. */
module RepackCdx {
  import opened Common
  import opened CdxModel

  /** The comment carried by every distribution reference. */
  const SourceArchiveComment: string := "source archive (local copy)"

  /** The foreign helpers the transformer relies on, with no behaviour
      assumed beyond their signatures: `cdx_package_repr(p, {})`,
      `checksum_to_cdx`, and `Bom.get_component_by_purl` given as the position
      of the component it returns. The transform changes neither the list of
      components nor any purl, so the lookup is fixed for a transformer. */
  datatype Collaborators = Collaborators(
    componentRepr: Package -> Component,
    checksumToCdx: string -> string,
    componentByPurl: string -> Option<nat>)

  /** The sorted set's `add`: the reference is present afterwards, and nothing
      else is added or lost. */
  function AddReference(refs: seq<ExternalReference>, r: ExternalReference): (s: seq<ExternalReference>)
    ensures forall x :: x in s <==> x in refs || x == r
    ensures r in refs ==> s == refs
    ensures |s| <= |refs| + 1
  {
    if r in refs then refs else refs + [r]
  }

  predicate IsWebsite(r: ExternalReference) {
    r.referenceType == Website
  }

  /** Python's `any([r.type == WEBSITE for r in refs])`. */
  predicate HasWebsite(refs: seq<ExternalReference>) {
    exists i :: 0 <= i < |refs| && IsWebsite(refs[i])
  }

  /** The `i`-th reference is a website reference and none before it is. */
  predicate FirstWebsiteAt(refs: seq<ExternalReference>, i: int) {
    0 <= i < |refs| && IsWebsite(refs[i]) && forall j :: 0 <= j < i ==> !IsWebsite(refs[j])
  }

  /** `next(filter(is website, refs), None)`. */
  function FirstWebsite(refs: seq<ExternalReference>): (r: Option<ExternalReference>)
    ensures r.None? <==> !HasWebsite(refs)
    ensures r.Some? ==> exists i :: FirstWebsiteAt(refs, i) && refs[i] == r.value
  {
    if refs == [] then None
    else if IsWebsite(refs[0]) then
      assert FirstWebsiteAt(refs, 0);
      Some(refs[0])
    else
      var r := FirstWebsite(refs[1..]);
      if r.Some? then
        var i :| FirstWebsiteAt(refs[1..], i) && refs[1..][i] == r.value;
        assert FirstWebsiteAt(refs, i + 1);
        r
      else
        assert forall i :: 1 <= i < |refs| ==> refs[i] == refs[1..][i - 1];
        r
  }

  /** `_enhance`: take supplier and description from the synthesized
      component where the document component has none, and its first
      website reference where the component has no website at all. */
  function Enhance(comp: Component, synth: Component): (r: Component)
    ensures comp.supplier.Some? ==> r.supplier == comp.supplier
    ensures comp.supplier.None? ==> r.supplier == synth.supplier
    ensures !DescriptionMissing(comp.description) ==> r.description == comp.description
    ensures DescriptionMissing(comp.description) ==> r.description == synth.description
    ensures HasWebsite(comp.externalReferences) || !HasWebsite(synth.externalReferences) ==>
      r.externalReferences == comp.externalReferences
    ensures !HasWebsite(comp.externalReferences) && HasWebsite(synth.externalReferences) ==>
      forall x :: x in r.externalReferences <==> x in comp.externalReferences || Some(x) == FirstWebsite(synth.externalReferences)
    ensures r.(supplier := comp.supplier, description := comp.description,
               externalReferences := comp.externalReferences) == comp
  {
    var withSupplier := if comp.supplier.None? then comp.(supplier := synth.supplier) else comp;
    var withDescription :=
      if DescriptionMissing(withSupplier.description) then withSupplier.(description := synth.description)
      else withSupplier;
    if HasWebsite(withDescription.externalReferences) then withDescription
    else match FirstWebsite(synth.externalReferences)
      case None => withDescription
      case Some(website) =>
        withDescription.(externalReferences := AddReference(withDescription.externalReferences, website))
  }

  /** The distribution reference recorded for a repacked package: its
      locator, the fixed comment and one hash per checksum. */
  function DistributionReference(p: Package, toCdx: string -> string): (r: ExternalReference)
    ensures r.referenceType == Distribution && r.url == p.locator
    ensures r.comment == Some(SourceArchiveComment)
    ensures |r.hashes| == |p.checksums|
    ensures forall k :: 0 <= k < |p.checksums| ==>
      r.hashes[k] == Hash(toCdx(p.checksums[k].0), p.checksums[k].1)
  {
    ExternalReference(Distribution, p.locator, Some(SourceArchiveComment),
      seq(|p.checksums|, k requires 0 <= k < |p.checksums| => Hash(toCdx(p.checksums[k].0), p.checksums[k].1)))
  }

  /** One iteration of `transform` on the component found for `p`. */
  function Annotate(comp: Component, p: Package, c: Collaborators): (r: Component)
    ensures DistributionReference(p, c.checksumToCdx) in r.externalReferences
    ensures forall x :: x in comp.externalReferences ==> x in r.externalReferences
    ensures r.bomRef == comp.bomRef && r.name == comp.name && r.version == comp.version
    ensures r.purl == comp.purl && r.hashes == comp.hashes
    ensures !p.isSource ==> r.supplier == comp.supplier && r.description == comp.description
    ensures !p.isSource ==> forall x :: x in r.externalReferences <==>
      x in comp.externalReferences || x == DistributionReference(p, c.checksumToCdx)
    ensures p.isSource ==> var e := Enhance(comp, c.componentRepr(p));
      r.supplier == e.supplier && r.description == e.description &&
      forall x :: x in r.externalReferences <==> x in e.externalReferences || x == DistributionReference(p, c.checksumToCdx)
  {
    var enhanced := if p.isSource then Enhance(comp, c.componentRepr(p)) else comp;
    enhanced.(externalReferences :=
      AddReference(enhanced.externalReferences, DistributionReference(p, c.checksumToCdx)))
  }

  /** Because references are added to a set, annotating a component a second
      time for the same package changes nothing. */
  lemma AnnotateIdempotent(comp: Component, p: Package, c: Collaborators)
    ensures Annotate(Annotate(comp, p, c), p, c) == Annotate(comp, p, c)
  {
    var once := Annotate(comp, p, c);
    if p.isSource {
      var synth := c.componentRepr(p);
      var enhanced := Enhance(comp, synth);
      var dist := DistributionReference(p, c.checksumToCdx);
      assert HasWebsite(once.externalReferences) <==> HasWebsite(enhanced.externalReferences) by {
        if HasWebsite(once.externalReferences) {
          var i :| 0 <= i < |once.externalReferences| && IsWebsite(once.externalReferences[i]);
          assert once.externalReferences[i] in enhanced.externalReferences;
          var j :| 0 <= j < |enhanced.externalReferences| && enhanced.externalReferences[j] == once.externalReferences[i];
        }
        if HasWebsite(enhanced.externalReferences) {
          var i :| 0 <= i < |enhanced.externalReferences| && IsWebsite(enhanced.externalReferences[i]);
          assert enhanced.externalReferences[i] in once.externalReferences;
          var j :| 0 <= j < |once.externalReferences| && once.externalReferences[j] == enhanced.externalReferences[i];
        }
      }
      if !HasWebsite(enhanced.externalReferences) {
        assert !HasWebsite(synth.externalReferences);
      }
      assert Enhance(once, synth) == once;
    }
  }

  /** Every position the lookup answers with is a component of the document. */
  ghost predicate LookupInRange(lookup: string -> Option<nat>, n: nat) {
    forall purl :: lookup(purl).Some? ==> lookup(purl).value < n
  }

  /** `transform` over the components: each input package annotates the
      component its purl is found at, and is skipped when none is found. */
  function Transformed(components: seq<Component>, input: seq<Package>, c: Collaborators): (r: seq<Component>)
    requires LookupInRange(c.componentByPurl, |components|)
    ensures |r| == |components|
    decreases |input|
  {
    if input == [] then components
    else match c.componentByPurl(input[0].purl)
      case None => Transformed(components, input[1..], c)
      case Some(i) => Transformed(components[i := Annotate(components[i], input[0], c)], input[1..], c)
  }

  /** The input package is found at position `j`. */
  predicate Targets(p: Package, c: Collaborators, j: int) {
    c.componentByPurl(p.purl) == Some(j)
  }

  /** A package whose purl has no component contributes nothing: dropping it
      from the input gives the same components. */
  lemma {:induction false} MissedPackageIsSkipped(components: seq<Component>, before: seq<Package>, p: Package, after: seq<Package>, c: Collaborators)
    requires LookupInRange(c.componentByPurl, |components|)
    requires c.componentByPurl(p.purl).None?
    ensures Transformed(components, before + [p] + after, c) == Transformed(components, before + after, c)
    decreases |before|
  {
    if before == [] {
      assert before + [p] + after == [p] + after;
      assert before + after == after;
      assert ([p] + after)[0] == p && ([p] + after)[1..] == after;
      assert Transformed(components, [p] + after, c) == Transformed(components, after, c);
    } else {
      assert (before + [p] + after)[0] == before[0] && (before + after)[0] == before[0];
      assert (before + [p] + after)[1..] == before[1..] + [p] + after;
      assert (before + after)[1..] == before[1..] + after;
      match c.componentByPurl(before[0].purl)
      case None =>
        MissedPackageIsSkipped(components, before[1..], p, after, c);
      case Some(i) =>
        MissedPackageIsSkipped(components[i := Annotate(components[i], before[0], c)], before[1..], p, after, c);
    }
  }

  /** Components that no input package is found at are not modified. */
  lemma {:induction false} TransformedUntouched(components: seq<Component>, input: seq<Package>, c: Collaborators, j: int)
    requires LookupInRange(c.componentByPurl, |components|)
    requires 0 <= j < |components|
    requires forall k :: 0 <= k < |input| ==> !Targets(input[k], c, j)
    ensures Transformed(components, input, c)[j] == components[j]
    decreases |input|
  {
    if input != [] {
      assert !Targets(input[0], c, j);
      forall k | 0 <= k < |input[1..]| ensures !Targets(input[1..][k], c, j) {
        assert input[1..][k] == input[k + 1];
      }
      match c.componentByPurl(input[0].purl)
      case None =>
        TransformedUntouched(components, input[1..], c, j);
      case Some(i) =>
        TransformedUntouched(components[i := Annotate(components[i], input[0], c)], input[1..], c, j);
    }
  }

  /** Every component keeps all of its references, its identity and its own
      hashes; a supplier or a non-empty description already present is kept;
      a component found only for binary packages keeps both. */
  lemma {:induction false} TransformedPreserves(components: seq<Component>, input: seq<Package>, c: Collaborators, j: int)
    requires LookupInRange(c.componentByPurl, |components|)
    requires 0 <= j < |components|
    ensures var q := Transformed(components, input, c)[j];
      (forall x :: x in components[j].externalReferences ==> x in q.externalReferences) &&
      q.bomRef == components[j].bomRef && q.name == components[j].name &&
      q.version == components[j].version && q.purl == components[j].purl &&
      q.hashes == components[j].hashes
    ensures components[j].supplier.Some? ==>
      Transformed(components, input, c)[j].supplier == components[j].supplier
    ensures !DescriptionMissing(components[j].description) ==>
      Transformed(components, input, c)[j].description == components[j].description
    ensures (forall k :: 0 <= k < |input| && input[k].isSource ==> !Targets(input[k], c, j)) ==>
      Transformed(components, input, c)[j].supplier == components[j].supplier &&
      Transformed(components, input, c)[j].description == components[j].description
    decreases |input|
  {
    if input != [] {
      if forall k :: 0 <= k < |input| && input[k].isSource ==> !Targets(input[k], c, j) {
        forall k | 0 <= k < |input[1..]| && input[1..][k].isSource ensures !Targets(input[1..][k], c, j) {
          assert input[1..][k] == input[k + 1];
        }
      }
      match c.componentByPurl(input[0].purl)
      case None =>
        TransformedPreserves(components, input[1..], c, j);
      case Some(i) =>
        TransformedPreserves(components[i := Annotate(components[i], input[0], c)], input[1..], c, j);
    }
  }

  /** Every input package found at a component leaves its distribution
      reference on that component. */
  lemma {:induction false} TransformedAddsDistribution(components: seq<Component>, input: seq<Package>, c: Collaborators, k: int, j: int)
    requires LookupInRange(c.componentByPurl, |components|)
    requires 0 <= k < |input| && Targets(input[k], c, j)
    ensures 0 <= j < |components|
    ensures DistributionReference(input[k], c.checksumToCdx) in Transformed(components, input, c)[j].externalReferences
    decreases |input|
  {
    assert c.componentByPurl(input[k].purl).Some?;
    if k == 0 {
      var next := components[j := Annotate(components[j], input[0], c)];
      TransformedPreserves(next, input[1..], c, j);
    } else {
      assert input[1..][k - 1] == input[k];
      match c.componentByPurl(input[0].purl)
      case None =>
        TransformedAddsDistribution(components, input[1..], c, k - 1, j);
      case Some(i) =>
        TransformedAddsDistribution(components[i := Annotate(components[i], input[0], c)], input[1..], c, k - 1, j);
    }
  }

  /** Reference `x` on the component `before` is one that annotating it for
      `p` can add: the distribution reference of `p`, or, for a source
      package and a component without any website, the first website of the
      synthesized component. */
  predicate AddedFor(x: ExternalReference, p: Package, c: Collaborators, j: int, before: Component) {
    Targets(p, c, j) &&
    (x == DistributionReference(p, c.checksumToCdx) ||
     (p.isSource && !HasWebsite(before.externalReferences) &&
      Some(x) == FirstWebsite(c.componentRepr(p).externalReferences)))
  }

  /** Nothing but the expected references is added: each reference of a
      transformed component was already there or is one that annotating it
      for an input package found at it adds. */
  lemma {:induction false} TransformedAddsNothingElse(components: seq<Component>, input: seq<Package>, c: Collaborators, j: int)
    requires LookupInRange(c.componentByPurl, |components|)
    requires 0 <= j < |components|
    ensures forall x :: x in Transformed(components, input, c)[j].externalReferences ==>
      x in components[j].externalReferences ||
      exists k :: 0 <= k < |input| && AddedFor(x, input[k], c, j, components[j])
    decreases |input|
  {
    if input != [] {
      var r := Transformed(components, input, c);
      match c.componentByPurl(input[0].purl)
      case None =>
        TransformedAddsNothingElse(components, input[1..], c, j);
        forall x | x in r[j].externalReferences && x !in components[j].externalReferences
          ensures exists k :: 0 <= k < |input| && AddedFor(x, input[k], c, j, components[j])
        {
          var k :| 0 <= k < |input[1..]| && AddedFor(x, input[1..][k], c, j, components[j]);
          assert input[1..][k] == input[k + 1];
        }
      case Some(i) =>
        var next := components[i := Annotate(components[i], input[0], c)];
        TransformedAddsNothingElse(next, input[1..], c, j);
        AddedOnceAt(components, input, c, i, j);
        forall x | x in r[j].externalReferences && x !in components[j].externalReferences
          ensures exists k :: 0 <= k < |input| && AddedFor(x, input[k], c, j, components[j])
        {
          if x in next[j].externalReferences {
            assert AddedFor(x, input[0], c, j, components[j]);
          } else {
            var k :| 0 <= k < |input[1..]| && AddedFor(x, input[1..][k], c, j, next[j]);
            assert input[1..][k] == input[k + 1];
            TransformedPreserves(components, [input[0]], c, j);
            NoWebsiteBefore(components[j], next[j]);
            assert AddedFor(x, input[k + 1], c, j, components[j]);
          }
        }
    }
  }

  /** The first step of a run: what annotating position `i` adds to the
      references of position `j`. */
  lemma AddedOnceAt(components: seq<Component>, input: seq<Package>, c: Collaborators, i: nat, j: int)
    requires LookupInRange(c.componentByPurl, |components|)
    requires input != [] && c.componentByPurl(input[0].purl) == Some(i)
    requires 0 <= j < |components|
    ensures var next := components[i := Annotate(components[i], input[0], c)];
      forall x :: x in next[j].externalReferences && x !in components[j].externalReferences ==>
        AddedFor(x, input[0], c, j, components[j])
  {
  }

  /** A component that has no website after a step had none before it. */
  lemma NoWebsiteBefore(before: Component, after: Component)
    requires forall x :: x in before.externalReferences ==> x in after.externalReferences
    ensures !HasWebsite(after.externalReferences) ==> !HasWebsite(before.externalReferences)
  {
    if HasWebsite(before.externalReferences) {
      var i :| 0 <= i < |before.externalReferences| && IsWebsite(before.externalReferences[i]);
      var x := before.externalReferences[i];
      assert x in after.externalReferences;
      var m :| 0 <= m < |after.externalReferences| && after.externalReferences[m] == x;
    }
  }

  /** A reference that is a website makes the list have one. */
  lemma WebsiteIn(x: ExternalReference, refs: seq<ExternalReference>)
    requires x in refs && IsWebsite(x)
    ensures HasWebsite(refs)
  {
    var i :| 0 <= i < |refs| && refs[i] == x;
  }

  /** A gap is filled: once a source package found at `j` is reached, a
      missing supplier or description and a missing website are taken from
      its synthesized component whenever that has one, and later packages do
      not reopen the gap. */
  lemma {:induction false} TransformedFillsGaps(components: seq<Component>, input: seq<Package>, c: Collaborators, j: int, k: int)
    requires LookupInRange(c.componentByPurl, |components|)
    requires 0 <= k < |input| && input[k].isSource && Targets(input[k], c, j)
    ensures 0 <= j < |components|
    ensures components[j].supplier.None? && c.componentRepr(input[k]).supplier.Some? ==>
      Transformed(components, input, c)[j].supplier.Some?
    ensures DescriptionMissing(components[j].description) && !DescriptionMissing(c.componentRepr(input[k]).description) ==>
      !DescriptionMissing(Transformed(components, input, c)[j].description)
    ensures HasWebsite(c.componentRepr(input[k]).externalReferences) ==>
      HasWebsite(Transformed(components, input, c)[j].externalReferences)
    decreases |input|
  {
    assert c.componentByPurl(input[k].purl).Some?;
    match c.componentByPurl(input[0].purl)
    case None =>
      assert input[1..][k - 1] == input[k];
      TransformedFillsGaps(components, input[1..], c, j, k - 1);
    case Some(i) =>
      var next := components[i := Annotate(components[i], input[0], c)];
      var r := Transformed(next, input[1..], c);
      TransformedPreserves(next, input[1..], c, j);
      if HasWebsite(next[j].externalReferences) {
        var m :| 0 <= m < |next[j].externalReferences| && IsWebsite(next[j].externalReferences[m]);
        WebsiteIn(next[j].externalReferences[m], r[j].externalReferences);
      }
      if k == 0 {
        var synth := c.componentRepr(input[0]);
        if HasWebsite(synth.externalReferences) && !HasWebsite(components[j].externalReferences) {
          var w := FirstWebsite(synth.externalReferences).value;
          var n :| FirstWebsiteAt(synth.externalReferences, n) && synth.externalReferences[n] == w;
          WebsiteIn(w, next[j].externalReferences);
        }
        if HasWebsite(components[j].externalReferences) {
          var m :| 0 <= m < |components[j].externalReferences| && IsWebsite(components[j].externalReferences[m]);
          WebsiteIn(components[j].externalReferences[m], next[j].externalReferences);
        }
      } else {
        assert input[1..][k - 1] == input[k];
        TransformedFillsGaps(next, input[1..], c, j, k - 1);
      }
  }

  /** `StandardBomTransformerCDX`: the bill of materials it annotates in place. */
  class Transformer {
    const document: Bom
    const collaborators: Collaborators

    /** Every position the lookup answers with is a component of the document. */
    ghost predicate Valid()
      reads this, document
    {
      LookupInRange(collaborators.componentByPurl, |document.components|)
    }

    constructor (bom: Bom, c: Collaborators)
      requires LookupInRange(c.componentByPurl, |bom.components|)
      ensures document == bom && collaborators == c
      ensures Valid()
    {
      document := bom;
      collaborators := c;
    }

    /** `transform`: annotate the component of each repacked package, in
        order, skipping packages whose component is not found. */
    method Transform(packages: seq<Package>)
      requires Valid()
      modifies document
      ensures Valid()
      ensures document.components == Transformed(old(document.components), packages, collaborators)
      ensures document.dependencies == old(document.dependencies)
    {
      for k := 0 to |packages|
        invariant Valid()
        invariant Transformed(document.components, packages[k..], collaborators) ==
          Transformed(old(document.components), packages, collaborators)
        invariant document.dependencies == old(document.dependencies)
      {
        var p := packages[k];
        assert packages[k..][0] == p && packages[k..][1..] == packages[k + 1..];
        var found := collaborators.componentByPurl(p.purl);
        if found.None? {
          continue;
        }
        var i := found.value;
        var comp := document.components[i];
        if p.isSource {
          comp := Enhance(comp, collaborators.componentRepr(p));
        }
        comp := comp.(externalReferences :=
          AddReference(comp.externalReferences, DistributionReference(p, collaborators.checksumToCdx)));
        document.components := document.components[i := comp];
      }
      assert packages[|packages|..] == [];
    }
  }
}
