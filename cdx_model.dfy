/** The part of a CycloneDX bill of materials that the repack step reads and
    writes: components with their external references, and the dependency
    graph whose entries carry nested dependency entries. */
module CdxModel {
  import opened Common

  datatype ReferenceType = Website | Distribution | Vcs | OtherReferenceType

  datatype Hash = Hash(alg: string, content: string)

  datatype ExternalReference = ExternalReference(
    referenceType: ReferenceType,
    url: string,
    comment: Option<string>,
    hashes: seq<Hash>)

  /** An organizational entity; such an object is always truthy in Python,
      so only an absent supplier counts as missing. */
  datatype Supplier = Supplier(name: string)

  /** `bomRef` is `str(comp.bom_ref.value)`. `externalReferences` stands for
      the library's sorted set of references, listed in insertion order. */
  datatype Component = Component(
    bomRef: string,
    name: string,
    version: string,
    purl: Option<string>,
    supplier: Option<Supplier>,
    description: Option<string>,
    externalReferences: seq<ExternalReference>,
    hashes: seq<Hash>)

  /** A dependency entry: the component it is about (`ref`, the string form of
      its bom-ref) and the entries it depends on. */
  datatype Dependency = Dependency(ref: string, dependsOn: seq<Dependency>)

  /** The in-memory bill of materials; both collections are reassigned in place. */
  class Bom {
    var components: seq<Component>
    var dependencies: seq<Dependency>

    constructor (components: seq<Component>, dependencies: seq<Dependency>)
      ensures this.components == components && this.dependencies == dependencies
    {
      this.components := components;
      this.dependencies := dependencies;
    }
  }

  /** Python truthiness of an optional description. */
  predicate DescriptionMissing(d: Option<string>) {
    d.None? || d.value == ""
  }
}
