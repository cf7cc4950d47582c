/** A row of `livros` as the ML processor reads it: the columns its query
    selects, each `None` where the column is `NULL`. */
module Rows {
  import opened Wrappers

  datatype RawRow = RawRow(
    upc: Option<string>,
    title: Option<string>,
    category: Option<string>,
    priceEur: Option<real>,
    priceBrl: Option<real>,
    review: Option<string>,
    link: Option<string>)
}
