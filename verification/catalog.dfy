/**
 The read-only product catalog (the `Sneaker` table) and its lookup by id.
 */
module Catalog {
  import opened Common

  type ProductId = int

  /** A catalog entry: the columns of its public view. The float columns
      (size, price) are not part of this model. */
  datatype Product = Product(
    brand: string,
    model: string,
    colorName: string,
    colorCode: Option<string>,
    description: Option<string>,
    category: Option<string>,
    gender: Option<string>,
    inStock: bool,
    condition: Option<string>,
    imageUrl: Option<string>,
    releaseYear: Option<int>,
    sku: Option<string>)

  /** The product table, keyed by product id. */
  type Catalog = map<ProductId, Product>

  /** `GET /catalog`: every product once, with its id, in id order. */
  function ListProducts(catalog: Catalog): (r: seq<(ProductId, Product)>)
    ensures |r| == |catalog.Keys|
    ensures forall i :: 0 <= i < |r| ==> r[i].0 in catalog && r[i].1 == catalog[r[i].0]
    ensures forall i, j :: 0 <= i < j < |r| ==> r[i].0 < r[j].0
    ensures forall id :: id in catalog ==> exists i :: 0 <= i < |r| && r[i].0 == id
  {
    Listing(catalog)
  }

  /** `GET /catalog/<id>`: the product with that id, or a not-found error,
      never a success without a product. */
  function GetProduct(catalog: Catalog, id: ProductId): (r: Result<Product>)
    ensures r.Ok? <==> id in catalog
    ensures r.Ok? ==> r.value == catalog[id]
    ensures r.Err? ==> r.error == NotFound
  {
    if id in catalog then Ok(catalog[id]) else Err(NotFound)
  }
}
