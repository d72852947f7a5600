/**
 * The record both scrapers emit for one product card: the eight keys of the dictionary, in
 * the order they are written.
 */
module Product {
  import opened Wrappers

  /**
   * `product_url` and `image_url` are optional because Selenium's `get_attribute` may give
   * `None`; the requests scraper always fills them with a string, possibly empty.
   */
  datatype ProductRecord = ProductRecord(
    name: string,
    category: string,
    price: real,
    currency: string,
    productUrl: Option<string>,
    brand: string,
    unit: string,
    imageUrl: Option<string>)

  const Currency: string := "EUR"

  /** What every emitted record satisfies: a name, a positive price, euros. */
  predicate WellFormedRecord(r: ProductRecord) {
    r.name != "" && r.price > 0.0 && r.currency == Currency
  }
}
