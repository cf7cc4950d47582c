/** The `livros` table: one row per book, keyed by its UPC, written with
    `INSERT OR REPLACE`. */
module Store {
  import opened Wrappers

  /** A row of `livros`, column by column: `upc_livro`, `titulo`, `imagem`,
      `categoria`, `valor_principal_em_euros`, `valor_principal_em_reais`,
      `inventario`, `review`, `sinopse`, `num_reviews`, `link`. */
  datatype Book = Book(
    upc: string,
    title: string,
    image: string,
    category: string,
    priceEur: real,
    priceBrl: real,
    stock: int,
    rating: string,
    synopsis: string,
    numReviews: int,
    link: string)

  /** The table, from primary key to row. */
  type Table = map<string, Book>

  /** Every row is filed under its own UPC. */
  predicate KeyedByUpc(t: Table) {
    forall k :: k in t ==> t[k].upc == k
  }

  /** `INSERT OR REPLACE`: the row under the book's UPC becomes the book,
      whether or not there was one; no other row changes. */
  function Upsert(t: Table, b: Book): (r: Table)
    ensures r.Keys == t.Keys + {b.upc}
    ensures r[b.upc] == b
    ensures forall k :: k in t && k != b.upc ==> r[k] == t[k]
  {
    t[b.upc := b]
  }

  /** The range of DuckDB's `INTEGER`, the type of `inventario` and
      `num_reviews`: 32-bit two's complement. */
  const IntegerMin: int := -0x8000_0000
  const IntegerMax: int := 0x7fff_ffff

  predicate FitsInteger(n: int) {
    IntegerMin <= n <= IntegerMax
  }

  /** The book's integer columns fit their SQL type. */
  predicate FitsColumns(b: Book) {
    FitsInteger(b.stock) && FitsInteger(b.numReviews)
  }

  /** Every row of the table fits its columns. */
  predicate AllFit(t: Table) {
    forall k :: k in t ==> FitsColumns(t[k])
  }

  /** `INSERT OR REPLACE` as the database runs it: a book whose stock or
      review count does not fit `INTEGER` raises a conversion error and
      the table is left as it was; any other book is upserted. */
  function InsertOrReplace(t: Table, b: Book): (r: Option<Table>)
    ensures r.Some? <==> FitsColumns(b)
    ensures r.Some? ==> r.value == Upsert(t, b)
    ensures r.Some? && AllFit(t) ==> AllFit(r.value)
  {
    if FitsColumns(b) then Some(Upsert(t, b)) else None
  }

  /** After an upsert exactly one row holds the book's UPC, and it is the
      book. */
  lemma UpsertKeepsKeys(t: Table, b: Book)
    requires KeyedByUpc(t)
    ensures KeyedByUpc(Upsert(t, b))
    ensures forall k :: k in Upsert(t, b) && Upsert(t, b)[k].upc == b.upc ==> k == b.upc
  {
  }

  /** Repeating an upsert changes nothing. */
  lemma UpsertIdempotent(t: Table, b: Book)
    ensures Upsert(Upsert(t, b), b) == Upsert(t, b)
  {
  }

  /** The books upserted one after the other, first to last. */
  function UpsertAll(t: Table, bs: seq<Book>): Table
    decreases |bs|
  {
    if bs == [] then t else UpsertAll(Upsert(t, bs[0]), bs[1..])
  }

  /** The last of `bs` whose UPC is `upc`, if any. */
  function LastWith(bs: seq<Book>, upc: string): (r: Option<Book>)
    ensures r.Some? ==> r.value in bs && r.value.upc == upc
    ensures r.None? <==> forall i :: 0 <= i < |bs| ==> bs[i].upc != upc
    decreases |bs|
  {
    if bs == [] then None
    else if bs[|bs| - 1].upc == upc then Some(bs[|bs| - 1])
    else LastWith(bs[..|bs| - 1], upc)
  }

  /** No book of `bs` holds `upc`. */
  predicate NoneWith(bs: seq<Book>, upc: string) {
    forall j :: 0 <= j < |bs| ==> bs[j].upc != upc
  }

  /** The book found is the last one written under its UPC: it sits at some
      index of `bs` and no later book holds the UPC. */
  lemma {:induction false} LastWithIsLast(bs: seq<Book>, upc: string)
    ensures LastWith(bs, upc).Some? ==>
              exists i :: 0 <= i < |bs| && bs[i] == LastWith(bs, upc).value && NoneWith(bs[i + 1..], upc)
    decreases |bs|
  {
    if bs != [] && bs[|bs| - 1].upc == upc {
      assert NoneWith(bs[|bs|..], upc);
    } else if bs != [] {
      var init := bs[..|bs| - 1];
      assert LastWith(bs, upc) == LastWith(init, upc);
      LastWithIsLast(init, upc);
      if LastWith(init, upc).Some? {
        var i :| 0 <= i < |init| && init[i] == LastWith(init, upc).value && NoneWith(init[i + 1..], upc);
        LastStaysLast(bs, i, upc);
      }
    }
  }

  /** An index with no later book holding `upc` in all but the last book
      keeps that property when the last book holds another UPC. */
  lemma LastStaysLast(bs: seq<Book>, i: nat, upc: string)
    requires i + 1 < |bs| && bs[|bs| - 1].upc != upc
    requires NoneWith(bs[..|bs| - 1][i + 1..], upc)
    ensures NoneWith(bs[i + 1..], upc)
  {
    assert bs[i + 1..] == bs[..|bs| - 1][i + 1..] + [bs[|bs| - 1]];
  }

  lemma LastWithCons(b: Book, bs: seq<Book>, upc: string)
    ensures LastWith([b] + bs, upc)
              == if LastWith(bs, upc).Some? then LastWith(bs, upc)
                 else if b.upc == upc then Some(b) else None
    decreases |bs|
  {
    var whole := [b] + bs;
    if bs == [] {
      assert whole == [b];
    } else if bs[|bs| - 1].upc == upc {
      assert whole[|whole| - 1] == bs[|bs| - 1];
    } else {
      var init := bs[..|bs| - 1];
      assert whole[|whole| - 1] == bs[|bs| - 1];
      assert whole[..|whole| - 1] == [b] + init;
      assert LastWith(whole, upc) == LastWith([b] + init, upc);
      assert LastWith(bs, upc) == LastWith(init, upc);
      LastWithCons(b, init, upc);
    }
  }

  /** The UPCs of a run of books. */
  function Upcs(bs: seq<Book>): set<string> {
    set b | b in bs :: b.upc
  }

  /** After a run of upserts the keys are the old ones and the UPCs
      written. */
  lemma {:induction false} UpsertAllKeys(t: Table, bs: seq<Book>)
    ensures UpsertAll(t, bs).Keys == t.Keys + Upcs(bs)
    decreases |bs|
  {
    if bs != [] {
      UpsertAllKeys(Upsert(t, bs[0]), bs[1..]);
      assert bs == [bs[0]] + bs[1..];
      assert Upcs(bs) == {bs[0].upc} + Upcs(bs[1..]);
    }
  }

  /** After a run of upserts, a UPC's row is the last book written under
      it, or the old row when none was. */
  lemma {:induction false} UpsertAllRow(t: Table, bs: seq<Book>, k: string)
    requires k in t || LastWith(bs, k).Some?
    ensures k in UpsertAll(t, bs)
    ensures UpsertAll(t, bs)[k] == if LastWith(bs, k).Some? then LastWith(bs, k).value else t[k]
    decreases |bs|
  {
    if bs != [] {
      var t' := Upsert(t, bs[0]);
      LastWithCons(bs[0], bs[1..], k);
      assert bs == [bs[0]] + bs[1..];
      UpsertAllRow(t', bs[1..], k);
    }
  }

  /** Writing the same books again, in the same order, changes nothing. */
  lemma UpsertAllTwice(t: Table, bs: seq<Book>)
    ensures UpsertAll(UpsertAll(t, bs), bs) == UpsertAll(t, bs)
  {
    var once := UpsertAll(t, bs);
    UpsertAllKeys(t, bs);
    UpsertAllKeys(once, bs);
    forall k | k in once
      ensures UpsertAll(once, bs)[k] == once[k]
    {
      UpsertAllRow(t, bs, k);
      UpsertAllRow(once, bs, k);
    }
  }

  /** Upserting keeps every row filed under its own UPC. */
  lemma {:induction false} UpsertAllKeepsKeys(t: Table, bs: seq<Book>)
    requires KeyedByUpc(t)
    ensures KeyedByUpc(UpsertAll(t, bs))
    decreases |bs|
  {
    if bs != [] {
      UpsertKeepsKeys(t, bs[0]);
      UpsertAllKeepsKeys(Upsert(t, bs[0]), bs[1..]);
    }
  }
}
