# debsbom repack: work-set selection, document filtering and standard-bom transformers

This project models, in Dafny, the core of debsbom's `repack` command. That core has two parts.

The first part is the command's run (`RepackCmd.run`). It does four things in order:

- It selects the resolver's packages with the download command's source/binary predicate.
- It prunes the in-memory SBOM to the requested architecture class.
  - A node is a source node when its bom-ref or package URL contains `arch=source`.
  - In a CycloneDX bill of materials it prunes components and dependency entries, together with the entries nested one level inside them.
  - In an SPDX document it prunes packages and relationships.
- It narrows the work set to the optional partial-run subset.
- It keeps the non-empty results of the packer.

The second part is the two "standard-bom" transformers. Each one annotates the document in place for every repacked package:

- It adds a distribution reference to the local copy.
- For SPDX, it replaces the checksums.
- For source packages, it backfills supplier, description/homepage and summary where the document has a gap.

Modules:

- `Common` (common.dfy): `Option`, the order-preserving `Filter` with the `IsSubsequence` relation, Python's substring test `Contains`, and the Debian `Package` handle.
- `SpdxModel` (spdx_model.dfy) and `CdxModel` (cdx_model.dfy): the few fields of the two document models that the core touches. Each document is a class whose collections are reassigned in place.
- `RepackCommand` (repack_cmd.dfy): the filters as specification functions, the methods that apply them to a document, and `Run`.
- `RepackSpdx` (repack_spdx.dfy) and `RepackCdx` (repack_cdx.dfy): the transformers. Each has a specification function `Transformed` for a whole `transform` call, lemmas about it, and a `Transformer` class whose `Transform` loop is proved equal to `Transformed`.

Collaborators outside the core are parameters with no assumed behaviour. These are `DownloadCmd._filter_pkg`, `Packer.repack`, `SpdxPackageResolver.is_debian_pkg`, `spdx_package_repr`, `cdx_package_repr`, `checksum_to_spdx`, `checksum_to_cdx` and `Bom.get_component_by_purl`. The one exception is `get_component_by_purl`: it is assumed to answer with a component of the document (see "## Left out").

Points where the code's behaviour may be unexpected; the model follows the code:

- The SPDX transformer does not skip a package whose purl is not in its index. The lookup is a dictionary subscript, so the call ends with `KeyError`. The CycloneDX transformer does skip such a package.
- Annotating a CycloneDX component twice for the same package does not add a second distribution reference. The references form a set, so `add` of an equal reference changes nothing (`RepackCdx.AnnotateIdempotent`). The SPDX transformer appends a second reference every time.
- Only the first level of nested CycloneDX dependency entries is pruned. Entries nested deeper are kept as they are.
- The SPDX supplier is backfilled only when it is NOASSERTION. An absent supplier is not filled in.

## Model

| member | source | states |
|---|---|---|
| `Common.Filter` | src/debsbom/commands/repack.py:52-53 | the result holds exactly the elements of the input that pass the predicate, each as many times as in the input and in input order (a subsequence with the same multiplicities), and is no longer than the input |
| `Common.ContainsAt` | src/debsbom/commands/repack.py:61 | the substring test used for the `arch=source` marker holds iff the marker occurs at some position |
| `RepackCommand.FilterComponents` | src/debsbom/commands/repack.py:55-69 | with both or neither flag the components are unchanged; with sources only, a component survives iff its bom-ref contains `arch=source`; with binaries only, iff it does not; each surviving component keeps its number of copies, and the result is a subsequence of the input |
| `RepackCommand.PruneNested` | src/debsbom/commands/repack.py:75-80 | a dependency entry keeps its ref, and its nested entries become exactly those whose ref lacks `arch=source`, in order |
| `RepackCommand.PruneEach` | src/debsbom/commands/repack.py:75-80 | every entry is pruned in place: same length, entry k becomes the pruned entry k |
| `RepackCommand.FilterDependencies` | src/debsbom/commands/repack.py:55-80 | with both or neither flag the entries are unchanged; with sources only they become empty; with binaries only, the result is the pruned form of a subsequence of the input that keeps every entry whose ref lacks the marker, as many times as it occurs, and no other, so the input order is kept; the entries are exactly the pruned forms of the entries whose ref lacks the marker, and no surviving entry or nested entry carries the marker |
| `RepackCommand.CdxNoDanglingEdges` | src/debsbom/commands/repack.py:64-80 | with binaries only, an edge (entry ref or nested ref) that names an input component names a surviving one |
| `RepackCommand.FilterCdxDocument` | src/debsbom/commands/repack.py:55-80 | the bill of materials' components and dependencies become the filtered ones, including the per-entry loop over nested entries |
| `RepackCommand.FilterPackages` | src/debsbom/commands/repack.py:81-102 | with both or neither flag the packages are unchanged; with sources only, a package survives iff some purl reference's locator contains `arch=source`; with binaries only, iff some purl reference's locator lacks it; each surviving package keeps its number of copies, and the result is a subsequence |
| `RepackCommand.NoPurlSurvivesNeither` | src/debsbom/commands/repack.py:82-102 | a package with no purl reference is removed by the sources filter and by the binaries filter |
| `SpdxModel.Ids` | src/debsbom/commands/repack.py:103 | the id set holds exactly the ids of the given packages |
| `RepackCommand.FilterRelationships` | src/debsbom/commands/repack.py:92-109 | with both or neither flag the relationships are unchanged; with sources only they become empty; with binaries only, a relationship survives iff both endpoints are ids of surviving packages, so no edge dangles, and it keeps its number of copies; the result is a subsequence |
| `RepackCommand.FilterSpdxDocument` | src/debsbom/commands/repack.py:81-109 | the document's packages and relationships become the filtered ones, with relationship endpoints checked against the filtered packages |
| `RepackCommand.WorkSet` | src/debsbom/commands/repack.py:111-114 | an absent or empty subset leaves the filtered list as it is; a non-empty subset keeps exactly the filtered packages that are members, each with its number of copies; either way the result is a subsequence of the filtered list |
| `RepackCommand.Repacked` | src/debsbom/commands/repack.py:115-121 | the result holds exactly the packer's non-empty results for the work set, and a skipped package contributes no entry; there is one result per package the packer did not skip, and the k-th result belongs to the k-th such package, so the work order is kept |
| `RepackCommand.Run` | src/debsbom/commands/repack.py:52-121 | the document is filtered as above for its kind, and the list that reaches `rewrite_sbom` is the packer's results for the work set built from the selected packages and the subset |
| `RepackSpdx.FirstPurlLocator` | src/debsbom/repack/spdx.py:29-38 | the result is the locator of the first purl-typed reference, and absent exactly when there is none (where Python raises); `RepackSpdx.PurlFromSpdx` is this function applied to a package's external references |
| `RepackSpdx.IndexByPurl` | src/debsbom/repack/spdx.py:22-27 | the index fails exactly when a Debian package has no purl; otherwise every key maps to a Debian package with that purl, every Debian package's purl is a key, and it maps to the last such package |
| `RepackSpdx.Transformer.constructor` | src/debsbom/repack/spdx.py:20-27 | the transformer wraps the document and holds its purl index |
| `RepackSpdx.Enhance` | src/debsbom/repack/spdx.py:40-49 | the supplier is replaced only when it is NOASSERTION; homepage and summary are set only when unset or empty; existing values are kept; no other field changes |
| `RepackSpdx.EnhanceIdempotent` | src/debsbom/repack/spdx.py:40-49 | backfilling twice from the same synthesized package equals backfilling once |
| `RepackSpdx.Annotate` | src/debsbom/repack/spdx.py:57-69 | one distribution reference is appended after all earlier ones; checksums become one per (algorithm, digest) of the package; id and name are kept; a binary package's descriptive fields are kept, and a source package's supplier, homepage and summary are those that `Enhance` backfills from its synthesized package |
| `RepackSpdx.Transformed` | src/debsbom/repack/spdx.py:51-70 | a transform never adds or removes document packages |
| `RepackSpdx.TransformedOutcome` | src/debsbom/repack/spdx.py:52-56 | the call ends normally iff every input purl is indexed; otherwise it names the first missing purl and leaves the updates of the packages before it |
| `RepackSpdx.TransformedUntouched` | src/debsbom/repack/spdx.py:51-69 | a document package that no input package targets is not modified |
| `RepackSpdx.DistributionRef` | src/debsbom/repack/spdx.py:60-66 | the appended reference has category PACKAGE_MANAGER, type `distribution` and the package's locator |
| `RepackSpdx.SpdxChecksums` | src/debsbom/repack/spdx.py:67-69 | one SPDX checksum per (algorithm, digest) entry, in order, with the algorithm converted and the digest kept |
| `RepackSpdx.DistributionRefsFor` | src/debsbom/repack/spdx.py:60-66 | every reference listed for a position is the distribution reference of an input package targeting it |
| `RepackSpdx.DistributionRefsOnePerTarget` | src/debsbom/repack/spdx.py:52-66 | the list for a position has one reference per input package targeting it, and the k-th reference belongs to the k-th such package |
| `RepackSpdx.TransformedReferences` | src/debsbom/repack/spdx.py:60-66 | when every purl is indexed, a package's references become its old references followed by one distribution reference per input package targeting it, in input order |
| `RepackSpdx.LastTargeting` | src/debsbom/repack/spdx.py:67-69 | the chosen package is an input package targeting the position and no later input package targets it, so it is the last one; none is chosen only when none targets it |
| `RepackSpdx.TransformedChecksums` | src/debsbom/repack/spdx.py:67-69 | when every purl is indexed, a targeted package's checksums are exactly those of the last input package targeting it, and earlier checksums are discarded; an untargeted package keeps its own |
| `RepackSpdx.TransformedBackfillOnly` | src/debsbom/repack/spdx.py:41-58 | over any run, a non-NOASSERTION supplier and a non-empty homepage or summary are never overwritten; ids and names never change; a package targeted by no source package keeps all three fields |
| `RepackSpdx.TransformedFillsGaps` | src/debsbom/repack/spdx.py:40-58 | once a source package targeting a position is reached with every purl so far indexed, a NOASSERTION supplier and an empty homepage or summary are filled whenever its synthesized package has that field, and stay filled to the end of the run |
| `RepackSpdx.Transformer.Transform` | src/debsbom/repack/spdx.py:51-70 | the loop leaves the document packages and the outcome equal to `Transformed` of the old packages; relationships and the index stay valid |
| `RepackCdx.AddReference` | src/debsbom/repack/cdx.py:56 | after the set's `add`, the references are exactly the old ones plus the new one; adding a present reference changes nothing |
| `RepackCdx.FirstWebsite` | src/debsbom/repack/cdx.py:37-43 | the result is the first website reference, and absent exactly when there is none |
| `RepackCdx.Enhance` | src/debsbom/repack/cdx.py:22-45 | supplier and description are taken from the synthesized component only when missing; a website reference is added only when the component has none, and then only the synthesized component's first one; nothing else changes |
| `RepackCdx.DistributionReference` | src/debsbom/repack/cdx.py:56-66 | the reference has type DISTRIBUTION, url equal to the locator, comment "source archive (local copy)" and one hash per checksum entry, in order |
| `RepackCdx.Annotate` | src/debsbom/repack/cdx.py:53-66 | the distribution reference is present afterwards and every earlier reference is kept; bom-ref, name, version, purl and hashes are kept; for a binary package, supplier and description are kept and the references are exactly the old ones plus the distribution reference; for a source package, supplier and description are those `Enhance` fills in and the references are exactly `Enhance`'s plus the distribution reference |
| `RepackCdx.AnnotateIdempotent` | src/debsbom/repack/cdx.py:47-66 | annotating a component a second time for the same package changes nothing |
| `RepackCdx.Transformed` | src/debsbom/repack/cdx.py:47-67 | a transform never adds or removes components |
| `RepackCdx.MissedPackageIsSkipped` | src/debsbom/repack/cdx.py:50-52 | a package whose purl has no component contributes nothing: removing it from the input gives the same components |
| `RepackCdx.TransformedUntouched` | src/debsbom/repack/cdx.py:47-67 | a component that no input package is found at is not modified |
| `RepackCdx.TransformedPreserves` | src/debsbom/repack/cdx.py:47-67 | every component keeps all its references, bom-ref, name, version, purl and hashes (no checksum replacement); an existing supplier or non-empty description is kept; a component found only for binary packages keeps both |
| `RepackCdx.TransformedAddsDistribution` | src/debsbom/repack/cdx.py:56-66 | every input package found at a component leaves its distribution reference on that component |
| `RepackCdx.TransformedAddsNothingElse` | src/debsbom/repack/cdx.py:31-66 | every new reference of a component is the distribution reference of a package found at it, or the synthesized first website of a source package found at it when the component had no website |
| `RepackCdx.TransformedFillsGaps` | src/debsbom/repack/cdx.py:22-54 | once a source package found at a component is reached, a missing supplier or description is filled whenever its synthesized component has one, and the component has a website whenever the synthesized component does; later packages do not undo this |
| `RepackCdx.Transformer.constructor` | src/debsbom/repack/cdx.py:19-20 | the transformer wraps the bill of materials |
| `RepackCdx.Transformer.Transform` | src/debsbom/repack/cdx.py:47-67 | the loop leaves the components equal to `Transformed` of the old components; dependencies are unchanged |

## Left out

- Option decoding (src/debsbom/commands/repack.py:35-36) and `setup_parser` (src/debsbom/commands/repack.py:130-161) are argument plumbing and are not modelled.
- Partial-mode detection (src/debsbom/commands/repack.py:38-42) reads standard input. The subset is a parameter of `Run` instead: absent, or the set of packages the stream resolver would yield.
- `Packer.from_format`, `BomTransformer.create` (src/debsbom/commands/repack.py:110) and `packer.rewrite_sbom` are not part of this model. `Run` ends with the list handed to `rewrite_sbom`. The transformers are modelled on their own, and their constructors stand for `create`.
- `Packer.repack` does archive and file-system work. It is a parameter returning an optional package, and its `symlink` and `mtime` arguments are folded into it.
- `BomWriter` output and validation (src/debsbom/commands/repack.py:123-128) are I/O.
- In the source, `filter` and `map` are lazy, so the packer runs while `rewrite_sbom` consumes the results. The model computes the list first. The order of the results is the same.
- The library model classes are reduced to the fields the core uses. In the CycloneDX library, the components, the external references of a component, the hashes of an external reference, the bill of materials' dependencies and the nested dependencies of an entry are sorted sets. The model keeps all of them as sequences in insertion order and claims nothing about the library's sort order. Where a row above says "in order", it means the order of the model's sequence.
- The partial-run subset test `p in pkg_subset` (src/debsbom/commands/repack.py:112) uses the library `Package`'s equality and hash, which are not part of this model. The model compares packages structurally, over all six fields of `Common.Package`, including locator and checksums.
- Document packages and components are values in the document's sequences, updated by position. The Python objects aliased by `pkgs_by_purl` are modelled as positions in the package list.
- src/debsbom/sbom.py is not part of this model. The distribution reference type is written as the string `distribution`. The purl reference type is `purl`, the literal that the run's filter uses.
- The check `if not spdx_pkg: continue` (src/debsbom/repack/spdx.py:55-56) is not modelled. A package object found in the index is always truthy, so the branch never runs.
- RepackSpdx.Transformer.constructor: Python raises when a Debian package has no purl reference, and the model does not include that error as an outcome of construction. The constructor requires the index to exist, and `IndexByPurl` says exactly when it does.
- RepackCdx.Transformer.constructor: `Bom.get_component_by_purl` is given as a fixed map from purl to component position. The constructor requires every answer to be a position in the document. A transform changes neither the components' purls nor their number, so a lookup repeated during the call gives the same answer.
