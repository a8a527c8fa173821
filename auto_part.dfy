/** The catalog's value types, `AutoPart` and its nested `Specifications`. */
module AutoParts {

  /** Free-text physical specifications of a part. */
  datatype Specifications = Specifications(
    weight: string,
    dimensions: string,
    material: string)

  /**
   * One catalog entry. The source enforces no invariant on any field, so none
   * is imposed here: a negative price or stock is representable. The price is
   * a `decimal` in the source; `real` keeps its sums exact.
   */
  datatype AutoPart = AutoPart(
    id: int,
    name: string,
    description: string,
    imageUrl: string,
    price: real,
    manufacturer: string,
    modelCompatibility: seq<string>,
    partNumber: string,
    stock: int,
    specifications: Specifications)
}
