/**
 * The entities the view model handles: repositories and releases as listed
 * by the remote catalog (immutable values), the persisted form of a parsed
 * release, and the in-memory `ReleaseContentModel` and `Product` objects,
 * whose fields are assigned in place (the acquisition annotates a model, the
 * cache load points every product back at its model).
 */
module Models {

  /** A timestamp (`DateTime`), kept as an opaque tick count. */
  type Timestamp = int

  /** One published release of a repository; `name` carries the archive extension. */
  datatype Release = Release(
    name: string,
    url: string,
    major: int,
    minor: int,
    build: int,
    published: Timestamp,
    isPrerelease: bool)

  datatype Repository = Repository(name: string, releases: seq<Release>)

  /** A product as serialised inside a release record (its back-reference is not serialised). */
  datatype ProductRecord = ProductRecord(name: string)

  /** The JSON document kept in a release folder's `cache.json`. */
  datatype ReleaseRecord = ReleaseRecord(
    repositoryName: string,
    releaseName: string,
    version: string,
    published: Timestamp,
    isPrerelease: bool,
    xmlFile: string,
    products: seq<ProductRecord>)

  class Product {
    const name: string
    /** The non-owning back-reference to the model that contains this product. */
    var releaseContent: ReleaseContentModel?

    constructor (name: string)
      ensures this.name == name && releaseContent == null
    {
      this.name := name;
      releaseContent := null;
    }
  }

  class ReleaseContentModel {
    var repositoryName: string
    var releaseName: string
    var version: string
    var published: Timestamp
    var isPrerelease: bool
    const xmlFile: string
    const products: seq<Product>

    /** Builds a model holding `rec`'s field values over the given product objects. */
    constructor (rec: ReleaseRecord, products: seq<Product>)
      requires NamesOf(products) == rec.products
      ensures Record() == rec && this.products == products
    {
      repositoryName := rec.repositoryName;
      releaseName := rec.releaseName;
      version := rec.version;
      published := rec.published;
      isPrerelease := rec.isPrerelease;
      xmlFile := rec.xmlFile;
      this.products := products;
    }

    /** The value this model serialises to. */
    function Record(): ReleaseRecord
      reads this
    {
      ReleaseRecord(repositoryName, releaseName, version, published, isPrerelease, xmlFile, NamesOf(products))
    }

    /** Every product of this model points back at it. */
    ghost predicate Linked()
      reads products
    {
      forall p :: p in products ==> p.releaseContent == this
    }
  }

  /** The serialised form of a sequence of products. */
  function NamesOf(ps: seq<Product>): (r: seq<ProductRecord>)
    ensures |r| == |ps|
    ensures forall i :: 0 <= i < |ps| ==> r[i] == ProductRecord(ps[i].name)
  {
    if ps == [] then [] else NamesOf(ps[..|ps| - 1]) + [ProductRecord(ps[|ps| - 1].name)]
  }

  /**
   * Allocates the object graph for a deserialised or freshly parsed record:
   * a new model and one new product per serialised product, with every
   * back-reference still unset.
   */
  method Materialize(rec: ReleaseRecord) returns (m: ReleaseContentModel)
    ensures fresh(m) && m.Record() == rec
    ensures forall p :: p in m.products ==> fresh(p) && p.releaseContent == null
  {
    var ps: seq<Product> := [];
    for i := 0 to |rec.products|
      invariant NamesOf(ps) == rec.products[..i]
      invariant forall p :: p in ps ==> fresh(p) && p.releaseContent == null
    {
      var p := new Product(rec.products[i].name);
      ps := ps + [p];
    }
    m := new ReleaseContentModel(rec, ps);
  }

  /** Every product of every model in `ms` points back at the model that holds it. */
  ghost predicate AllLinked(ms: seq<ReleaseContentModel>)
    reads set m, p | m in ms && p in m.products :: p
  {
    forall m, p :: m in ms && p in m.products ==> p.releaseContent == m
  }

  /** Points every product of `m` back at `m`, one product at a time. */
  method LinkProducts(m: ReleaseContentModel)
    modifies set p | p in m.products
    ensures m.Linked()
  {
    for i := 0 to |m.products|
      invariant forall j :: 0 <= j < i ==> m.products[j].releaseContent == m
    {
      m.products[i].releaseContent := m;
    }
  }
}
