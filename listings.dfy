/** The listing record exchanged between the search endpoint and the results view. */
module Listings {

  import opened Wrappers

  /** One store's offer for a product, as the search endpoint returns it
      (`interface Product` in app/api/search/route.ts and app/components/SearchResults.tsx). */
  datatype Product = Product(
    title: string,
    price: string,
    link: string,
    store: string,
    image: Option<string>)
}
