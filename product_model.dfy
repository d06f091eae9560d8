/** lib/models/productModel.ts: the tracked-product document, its price-history and user
    subdocuments, the rules the schema enforces, and the collection the routes read and write.
    Prices are integers (for example centimes); dates are caller-supplied integer timestamps. */
module ProductModel {
  import opened Common

  /** The email of a signed-in user. The session copies it from the user record, whose email is
      required, so it is never empty. */
  type Email = e: string | e != "" witness "@"

  datatype PriceEntry = PriceEntry(productPrice: int, priceLogDate: int)

  datatype ProductUser = ProductUser(userEmail: string, userImportDate: int)

  /** `id` is the document's `_id`. */
  datatype Product = Product(
    id: nat,
    productName: string,
    productPrice: int,
    productUrl: string,
    productWebsite: string,
    productPriceHistory: seq<PriceEntry>,
    productUsers: seq<ProductUser>)

  /** Casting a history subdocument: its price is required and its log date, when not given,
      defaults to the current time. */
  function CastPriceEntry(productPrice: Option<int>, priceLogDate: Option<int>, now: int): (r: Option<PriceEntry>)
    ensures r.Some? <==> productPrice.Some?
    ensures r.Some? ==> r.value.productPrice == productPrice.value
    ensures r.Some? ==> r.value.priceLogDate == if priceLogDate.Some? then priceLogDate.value else now
  {
    match productPrice
    case None => None
    case Some(price) => Some(PriceEntry(price, match priceLogDate case Some(d) => d case None => now))
  }

  /** Casting a user subdocument: its email is required (a required string must not be empty) and its
      import date, when not given, defaults to the current time. */
  function CastProductUser(userEmail: Option<string>, userImportDate: Option<int>, now: int): (r: Option<ProductUser>)
    ensures r.Some? <==> userEmail.Some? && userEmail.value != ""
    ensures r.Some? ==> r.value.userEmail == userEmail.value
    ensures r.Some? ==> r.value.userImportDate == if userImportDate.Some? then userImportDate.value else now
  {
    if userEmail.None? || userEmail.value == "" then None
    else Some(ProductUser(userEmail.value, match userImportDate case Some(d) => d case None => now))
  }

  /** The schema's required string paths are non-empty, in the product and in every user entry.
      (Prices and dates are always present in this typed model.) */
  predicate Conforms(p: Product) {
    && p.productName != ""
    && p.productUrl != ""
    && p.productWebsite != ""
    && forall k :: 0 <= k < |p.productUsers| ==> p.productUsers[k].userEmail != ""
  }

  function Last(history: seq<PriceEntry>): PriceEntry
    requires history != []
  {
    history[|history| - 1]
  }

  predicate DistinctEmails(users: seq<ProductUser>) {
    forall j, k :: 0 <= j < k < |users| ==> users[j].userEmail != users[k].userEmail
  }

  predicate Associated(p: Product, email: string) {
    exists k :: 0 <= k < |p.productUsers| && p.productUsers[k].userEmail == email
  }

  /** What every route keeps true of a stored product: it conforms to the schema, its current
      price is the price of its last history entry, at least one user tracks it and no user
      tracks it twice. */
  predicate WellFormed(p: Product) {
    && Conforms(p)
    && p.productPriceHistory != []
    && p.productPrice == Last(p.productPriceHistory).productPrice
    && p.productUsers != []
    && DistinctEmails(p.productUsers)
  }

  /** The collection: well-formed products with distinct ids below the next id to hand out, and
      at most one product per name. */
  predicate StoreInvariant(products: seq<Product>, nextId: nat) {
    && (forall i :: 0 <= i < |products| ==> WellFormed(products[i]) && products[i].id < nextId)
    && (forall i, j :: 0 <= i < j < |products| ==> products[i].id != products[j].id)
    && (forall i, j :: 0 <= i < j < |products| ==> products[i].productName != products[j].productName)
  }

  /** The "product" collection: its documents in natural order and the id the next insert gets. */
  class ProductCollection {
    var products: seq<Product>
    var nextId: nat

    ghost predicate Valid()
      reads this
    {
      StoreInvariant(products, nextId)
    }

    constructor ()
      ensures Valid() && products == [] && nextId == 0
    {
      products := [];
      nextId := 0;
    }
  }
}
