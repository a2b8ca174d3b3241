/**
 * The book record shared by the services. The services and parsers do not agree on
 * the fields of `Book` (some use a view count, a publisher name, author and category
 * links, a contents text that the entity class itself lacks), so this is the union of
 * every field any of them reads or writes.
 */
module Entities {
  import opened Wrappers

  /** A calendar date (java.time.LocalDate). */
  datatype Date = Date(year: int, month: int, day: int)

  /** BookState: only ON_SALE is ever assigned by the modelled code; the other
      constants of the enum are kept by name. */
  datatype BookState = OnSale | OtherState(name: string)

  datatype Book = Book(
    id: Option<int>,               // null until the row is first saved
    isbn: string,
    name: string,
    description: Option<string>,
    publisher: Option<string>,     // the publisher's name
    publicationDate: Date,
    index: Option<string>,         // the table of contents
    packaging: bool,
    state: BookState,
    stock: int,
    regularPrice: int,
    salePrice: int,
    reviewRate: real,
    image: Option<string>,
    authors: seq<string>,          // one BookAuthor link per entry, by author name
    categories: seq<int>,          // one BookCategory link per entry, by category id
    contents: Option<string>,
    viewCount: int
  )
}
