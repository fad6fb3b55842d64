/** The part of an SPDX 2 document that the repack step reads and writes:
    packages with their external references, descriptive fields and
    checksums, and the relationships between element ids. */
module SpdxModel {
  import opened Common

  /** Reference type of a package URL external reference. */
  const PurlType: string := "purl"

  /** Reference type of the local-copy distribution reference. */
  const DistributionType: string := "distribution"

  datatype Category = PackageManager | Security | PersistentId | OtherCategory

  datatype ExternalRef = ExternalRef(category: Category, referenceType: string, locator: string)

  datatype Checksum = Checksum(algorithm: string, value: string)

  /** A descriptive field: unset (Python `None`), a text, or one of SPDX's
      NOASSERTION and NONE markers. */
  datatype Value = Unset | Text(text: string) | NoAssertion | NoneMarker
  {
    /** Python truthiness of the field: `None` and `""` are falsy, every
        other value (the two marker objects included) is truthy. */
    predicate Falsy() {
      Unset? || (Text? && text == "")
    }
  }

  datatype SpdxPackage = SpdxPackage(
    spdxId: string,
    name: string,
    supplier: Value,
    homepage: Value,
    summary: Value,
    externalReferences: seq<ExternalRef>,
    checksums: seq<Checksum>)

  datatype Relationship = Relationship(
    spdxElementId: string,
    relationshipType: string,
    relatedSpdxElementId: string)

  /** The in-memory document; both collections are reassigned in place. */
  class Document {
    var packages: seq<SpdxPackage>
    var relationships: seq<Relationship>

    constructor (packages: seq<SpdxPackage>, relationships: seq<Relationship>)
      ensures this.packages == packages && this.relationships == relationships
    {
      this.packages := packages;
      this.relationships := relationships;
    }
  }

  /** The ids of a list of packages. */
  function Ids(packages: seq<SpdxPackage>): (ids: set<string>)
    ensures forall p :: p in packages ==> p.spdxId in ids
    ensures forall id :: id in ids ==> exists p :: p in packages && p.spdxId == id
  {
    set p | p in packages :: p.spdxId
  }
}
