/** app/api/product/route.ts: importing a scraped product (POST), listing a user's products (GET)
    and removing a user's association with a product (DELETE). The session, the scraper call and
    parseFloat are inputs: `session` is the signed-in user's email if any, `scraped` is what the
    site scraper returned for the URL (or that calling it threw), and `parse` stands for parseFloat,
    None meaning NaN. */
module ProductRoute {
  import opened Common
  import opened ProductModel
  import opened Scrapers

  /** The scraper's answer: optional name and price text, or an exception. */
  datatype Scrape = ScrapeThrew | Scraped(productName: Option<string>, productPrice: Option<string>)

  /** JavaScript truthiness of an optional string: present and not empty. */
  predicate Truthy(s: Option<string>) {
    s.Some? && s.value != ""
  }

  // ----- price cleaning: productPrice.replace(/[^\d.-]/g, "")

  /** The characters the cleaning keeps: ASCII digits, '.' and '-'. */
  predicate Kept(c: char) {
    '0' <= c <= '9' || c == '.' || c == '-'
  }

  predicate AllKept(s: string) {
    forall i :: 0 <= i < |s| ==> Kept(s[i])
  }

  /** What the cleaning keeps of one character. */
  function Keep(c: char): string {
    if Kept(c) then [c] else []
  }

  /** The price text without every character outside [0-9.-]. */
  function CleanPrice(s: string): (r: string)
    ensures |r| <= |s|
    ensures AllKept(r)
    decreases |s|
  {
    if s == [] then [] else CleanPrice(s[..|s| - 1]) + Keep(s[|s| - 1])
  }

  lemma CleanPriceSnoc(s: string, c: char)
    ensures CleanPrice(s + [c]) == CleanPrice(s) + Keep(c)
  {
    assert (s + [c])[..|s|] == s;
  }

  /** Every digit, '.' and '-' of the price text survives cleaning, as often as it occurs. */
  lemma {:induction false} CleanPriceKeepsEveryKeptChar(s: string)
    ensures forall c :: Kept(c) ==> multiset(CleanPrice(s))[c] == multiset(s)[c]
    decreases |s|
  {
    if s != [] {
      var init, c := s[..|s| - 1], s[|s| - 1];
      assert s == init + [c];
      CleanPriceKeepsEveryKeptChar(init);
      assert multiset(s) == multiset(init) + multiset{c};
      assert multiset(CleanPrice(s)) == multiset(CleanPrice(init)) + multiset(Keep(c));
    }
  }

  /** Cleaning works character by character, so it keeps the kept characters in their order. */
  lemma {:induction false} CleanPriceAppend(a: string, b: string)
    ensures CleanPrice(a + b) == CleanPrice(a) + CleanPrice(b)
    decreases |b|
  {
    if b == [] {
      assert a + b == a;
    } else {
      var init, c := b[..|b| - 1], b[|b| - 1];
      assert b == init + [c];
      calc {
        CleanPrice(a + b);
        { assert a + b == (a + init) + [c]; }
        CleanPrice((a + init) + [c]);
        { CleanPriceSnoc(a + init, c); }
        CleanPrice(a + init) + Keep(c);
        { CleanPriceAppend(a, init); }
        (CleanPrice(a) + CleanPrice(init)) + Keep(c);
        CleanPrice(a) + (CleanPrice(init) + Keep(c));
        { CleanPriceSnoc(init, c); }
        CleanPrice(a) + CleanPrice(b);
      }
    }
  }

  /** Text made only of kept characters comes out unchanged. */
  lemma {:induction false} CleanPriceKeepsCleanText(s: string)
    requires AllKept(s)
    ensures CleanPrice(s) == s
    decreases |s|
  {
    if s != [] {
      var init, c := s[..|s| - 1], s[|s| - 1];
      assert s == init + [c];
      assert AllKept(init) by {
        forall i | 0 <= i < |init| ensures Kept(init[i]) {
          assert init[i] == s[i];
        }
      }
      CleanPriceKeepsCleanText(init);
      CleanPriceSnoc(init, c);
    }
  }

  /** Cleaning twice is cleaning once. */
  lemma CleanPriceIdempotent(s: string)
    ensures CleanPrice(CleanPrice(s)) == CleanPrice(s)
  {
    CleanPriceKeepsCleanText(CleanPrice(s));
  }

  /** Text with no digit, '.' or '-' cleans to nothing. */
  lemma {:induction false} CleanPriceDropsUnkept(s: string)
    requires forall i :: 0 <= i < |s| ==> !Kept(s[i])
    ensures CleanPrice(s) == []
    decreases |s|
  {
    if s != [] {
      CleanPriceDropsUnkept(s[..|s| - 1]);
    }
  }

  /** A price written with a decimal comma ("1 299,00 DH") loses the comma: the digits of the
      fraction are appended to those of the whole part, so the number read is the price scaled by
      a power of ten. */
  lemma DecimalCommaJoinsDigits(whole: string, fraction: string, suffix: string)
    requires AllKept(fraction)
    requires forall i :: 0 <= i < |suffix| ==> !Kept(suffix[i])
    ensures CleanPrice(whole + "," + fraction + suffix) == CleanPrice(whole) + fraction
  {
    var withComma := whole + [','];
    CleanPriceSnoc(whole, ',');
    assert CleanPrice(withComma) == CleanPrice(whole);
    assert whole + "," + fraction + suffix == withComma + fraction + suffix;
    CleanPriceAppend(withComma + fraction, suffix);
    CleanPriceAppend(withComma, fraction);
    CleanPriceDropsUnkept(suffix);
    CleanPriceKeepsCleanText(fraction);
  }

  // ----- lookups

  /** `Product.findOne({ productName })`. */
  function FindByName(products: seq<Product>, name: string): Option<nat> {
    FirstIndex(products, (p: Product) => p.productName == name)
  }

  /** `Product.findById(productId)`. */
  function FindById(products: seq<Product>, id: nat): Option<nat> {
    FirstIndex(products, (p: Product) => p.id == id)
  }

  /** `productUsers.findIndex(user => user.userEmail === email)`, with None for -1. */
  function FindUser(users: seq<ProductUser>, email: string): Option<nat> {
    FirstIndex(users, (u: ProductUser) => u.userEmail == email)
  }

  // ----- POST

  /** The import reached the lookup: signed in, the scraper ran, and it found a name and a price. */
  predicate Admitted(session: Option<Email>, productUrl: string, productWebsite: string, scraped: Scrape) {
    && session.Some?
    && ScraperRuns(productUrl, productWebsite, scraped)
    && Truthy(scraped.productName) && Truthy(scraped.productPrice)
  }

  /** The scraper module `${productWebsite}Scrapper` loads, its export of the same name is called,
      and the call returns. An unknown website names no module and an empty URL cannot be opened,
      so both throw. */
  predicate ScraperRuns(productUrl: string, productWebsite: string, scraped: Scrape) {
    Resolves(productWebsite, ExportOf(productWebsite)) && productUrl != "" && scraped.Scraped?
  }

  /** The product after `updateOne({ _id }, { $set: productData, $push: { productUsers: { userEmail } } })`.
      The pushed entry gets its import date from the schema default. */
  function Merge(p: Product, name: string, price: int, url: string, website: string, email: Email, now: int): (r: Product)
    // the document keeps its id and takes the scraped fields
    ensures r.id == p.id && r.productName == name && r.productUrl == url && r.productWebsite == website
    // the history restarts at the new price, which is also the current price
    ensures r.productPriceHistory == [PriceEntry(price, now)] && r.productPrice == Last(r.productPriceHistory).productPrice
    // the requester is pushed after the earlier users, who keep their order
    ensures r.productUsers == p.productUsers + [ProductUser(email, now)] && Associated(r, email)
    // a well-formed product not yet tracked by the requester stays well formed
    ensures WellFormed(p) && !Associated(p, email) && name != "" && url != "" && website != "" ==> WellFormed(r)
  {
    var entry := CastPriceEntry(Some(price), Some(now), now).value;
    var user := CastProductUser(Some(email), None, now).value;
    var r := p.(productName := name, productPrice := price, productUrl := url, productWebsite := website,
                productPriceHistory := [entry], productUsers := p.productUsers + [user]);
    assert r.productUsers[|p.productUsers|].userEmail == email;
    r
  }

  /** The document `new Product({...}).save()` stores. */
  function NewProduct(id: nat, name: string, price: int, url: string, website: string, email: Email, now: int): (r: Product)
    ensures r.id == id && r.productName == name && r.productUrl == url && r.productWebsite == website
    // one history entry at the scraped price, which is the current price
    ensures r.productPriceHistory == [PriceEntry(price, now)] && r.productPrice == Last(r.productPriceHistory).productPrice
    // the requester is the only user
    ensures r.productUsers == [ProductUser(email, now)] && Associated(r, email)
    ensures name != "" && url != "" && website != "" ==> WellFormed(r)
  {
    var entry := CastPriceEntry(Some(price), Some(now), now).value;
    var user := CastProductUser(Some(email), Some(now), now).value;
    var r := Product(id, name, price, url, website, [entry], [user]);
    assert r.productUsers[0].userEmail == email;
    r
  }

  datatype Imported = Imported(status: int, products: seq<Product>, nextId: nat)

  /** The response status of POST and the collection it leaves behind. */
  function Reconcile(products: seq<Product>, nextId: nat, session: Option<Email>, productUrl: string,
                     productWebsite: string, scraped: Scrape, parse: string -> Option<int>, now: int): (r: Imported)
    ensures r.status in {200, 201, 400, 401, 409, 500}
    // every refusal leaves the collection as it was
    ensures r.status !in {200, 201} ==> r.products == products && r.nextId == nextId
    ensures r.status == 401 <==> session.None?
    ensures r.status == 400 <==>
      session.Some? && ScraperRuns(productUrl, productWebsite, scraped)
      && !(Truthy(scraped.productName) && Truthy(scraped.productPrice))
    ensures r.status == 409 <==>
      Admitted(session, productUrl, productWebsite, scraped)
      && FindByName(products, scraped.productName.value).Some?
      && Associated(products[FindByName(products, scraped.productName.value).value], session.value)
    ensures r.status == 500 <==>
      session.Some?
      && (!ScraperRuns(productUrl, productWebsite, scraped)
          || (Admitted(session, productUrl, productWebsite, scraped)
              && parse(CleanPrice(scraped.productPrice.value)).None?
              && match FindByName(products, scraped.productName.value)
                 case None => true
                 case Some(i) => !Associated(products[i], session.value)))
    // a new name: one product is appended, tracked by the requester alone, with one history entry
    ensures r.status == 201 ==>
      && Admitted(session, productUrl, productWebsite, scraped)
      && FindByName(products, scraped.productName.value).None?
      && |r.products| == |products| + 1 && r.products[..|products|] == products
      && r.nextId == nextId + 1
      && var q := r.products[|products|];
      && q.id == nextId
      && q.productName == scraped.productName.value
      && parse(CleanPrice(scraped.productPrice.value)) == Some(q.productPrice)
      && q.productUrl == productUrl && q.productWebsite == productWebsite
      && q.productPriceHistory == [PriceEntry(q.productPrice, now)]
      && q.productUsers == [ProductUser(session.value, now)]
    // a known name without the requester: the scalars are overwritten, the history restarts from
    // the new price, and the requester is appended after the earlier users
    ensures r.status == 200 ==>
      && Admitted(session, productUrl, productWebsite, scraped)
      && FindByName(products, scraped.productName.value).Some?
      && var i := FindByName(products, scraped.productName.value).value;
      && !Associated(products[i], session.value)
      && r.nextId == nextId && |r.products| == |products|
      && (forall j :: 0 <= j < |products| && j != i ==> r.products[j] == products[j])
      && var q := r.products[i];
      && q.id == products[i].id
      && q.productName == scraped.productName.value
      && parse(CleanPrice(scraped.productPrice.value)) == Some(q.productPrice)
      && q.productUrl == productUrl && q.productWebsite == productWebsite
      && q.productPriceHistory == [PriceEntry(q.productPrice, now)]
      && q.productUsers == products[i].productUsers + [ProductUser(session.value, now)]
  {
    if session.None? then Imported(401, products, nextId)
    else if !ScraperRuns(productUrl, productWebsite, scraped) then Imported(500, products, nextId)
    else if !Truthy(scraped.productName) || !Truthy(scraped.productPrice) then Imported(400, products, nextId)
    else
      var name, email := scraped.productName.value, session.value;
      var price := parse(CleanPrice(scraped.productPrice.value));
      match FindByName(products, name)
      case Some(i) =>
        if Associated(products[i], email) then Imported(409, products, nextId)
        else if price.None? then Imported(500, products, nextId)
        else Imported(200, products[i := Merge(products[i], name, price.value, productUrl, productWebsite, email, now)], nextId)
      case None =>
        if price.None? then Imported(500, products, nextId)
        else Imported(201, products + [NewProduct(nextId, name, price.value, productUrl, productWebsite, email, now)], nextId + 1)
  }

  /** Merging a new user into the product of that name keeps the collection's invariant. */
  lemma MergeKeepsInvariant(products: seq<Product>, nextId: nat, i: nat, name: string, price: int, url: string,
                            website: string, email: Email, now: int)
    requires StoreInvariant(products, nextId) && i < |products|
    requires products[i].productName == name && !Associated(products[i], email)
    requires url != "" && website != ""
    ensures StoreInvariant(products[i := Merge(products[i], name, price, url, website, email, now)], nextId)
  {
    var users := products[i].productUsers;
    var q := Merge(products[i], name, price, url, website, email, now);
    assert q.productUsers == users + [ProductUser(email, now)];
    assert DistinctEmails(q.productUsers) by {
      forall j, k | 0 <= j < k < |q.productUsers|
        ensures q.productUsers[j].userEmail != q.productUsers[k].userEmail
      {
        if k == |users| {
          assert q.productUsers[j] == users[j];
        }
      }
    }
    assert WellFormed(q);
  }

  /** Appending a product under a new name and the next id keeps the collection's invariant. */
  lemma CreateKeepsInvariant(products: seq<Product>, nextId: nat, name: string, price: int, url: string,
                             website: string, email: Email, now: int)
    requires StoreInvariant(products, nextId) && FindByName(products, name).None?
    requires name != "" && url != "" && website != ""
    ensures StoreInvariant(products + [NewProduct(nextId, name, price, url, website, email, now)], nextId + 1)
  {
    assert WellFormed(NewProduct(nextId, name, price, url, website, email, now));
  }

  /** Imports keep the collection's invariant: names stay unique, ids fresh, every product keeps a
      user, no user twice, and its price equal to its last history entry. */
  lemma ReconcilePreservesInvariant(products: seq<Product>, nextId: nat, session: Option<Email>, productUrl: string,
                                    productWebsite: string, scraped: Scrape, parse: string -> Option<int>, now: int)
    requires StoreInvariant(products, nextId)
    ensures var r := Reconcile(products, nextId, session, productUrl, productWebsite, scraped, parse, now);
      StoreInvariant(r.products, r.nextId)
  {
    var r := Reconcile(products, nextId, session, productUrl, productWebsite, scraped, parse, now);
    if r.status in {200, 201} {
      var name, email := scraped.productName.value, session.value;
      var price := parse(CleanPrice(scraped.productPrice.value)).value;
      ResolvedSiteIsNamed(productWebsite, ExportOf(productWebsite));
      if r.status == 200 {
        var i := FindByName(products, name).value;
        MergeKeepsInvariant(products, nextId, i, name, price, productUrl, productWebsite, email, now);
      } else {
        CreateKeepsInvariant(products, nextId, name, price, productUrl, productWebsite, email, now);
      }
    }
  }

  /** Importing the same product again as the same user is refused with 409 and changes nothing. */
  lemma RepeatImportConflicts(products: seq<Product>, nextId: nat, session: Option<Email>, productUrl: string,
                              productWebsite: string, scraped: Scrape, parse: string -> Option<int>, now: int, later: int)
    requires Reconcile(products, nextId, session, productUrl, productWebsite, scraped, parse, now).status in {200, 201}
    ensures var r := Reconcile(products, nextId, session, productUrl, productWebsite, scraped, parse, now);
      var again := Reconcile(r.products, r.nextId, session, productUrl, productWebsite, scraped, parse, later);
      again.status == 409 && again.products == r.products && again.nextId == r.nextId
  {
    var r := Reconcile(products, nextId, session, productUrl, productWebsite, scraped, parse, now);
    var name, email := scraped.productName.value, session.value;
    var i := if r.status == 200 then FindByName(products, name).value else |products|;
    var q := r.products[i];
    assert q.productUsers[|q.productUsers| - 1].userEmail == email;
    assert FindByName(r.products, name) == Some(i) by {
      forall j | 0 <= j < i ensures r.products[j].productName != name {
        assert r.products[j] == products[j];
      }
    }
  }

  /** Two users importing the same product collapse onto one product that both track. */
  lemma TwoUsersShareOneProduct(products: seq<Product>, nextId: nat, a: Email, b: Email, productUrl: string,
                                productWebsite: string, scraped: Scrape, parse: string -> Option<int>, t1: int, t2: int)
    requires a != b
    requires Reconcile(products, nextId, Some(a), productUrl, productWebsite, scraped, parse, t1).status == 201
    ensures var first := Reconcile(products, nextId, Some(a), productUrl, productWebsite, scraped, parse, t1);
      var second := Reconcile(first.products, first.nextId, Some(b), productUrl, productWebsite, scraped, parse, t2);
      && second.status == 200
      && |second.products| == |products| + 1
      && (forall j :: 0 <= j < |second.products| && second.products[j].productName == scraped.productName.value
            ==> j == |products|)
      && second.products[|products|].productUsers == [ProductUser(a, t1), ProductUser(b, t2)]
  {
    var first := Reconcile(products, nextId, Some(a), productUrl, productWebsite, scraped, parse, t1);
    var name := scraped.productName.value;
    assert FindByName(first.products, name) == Some(|products|) by {
      forall j | 0 <= j < |products| ensures first.products[j].productName != name {
        assert first.products[j] == products[j];
      }
    }
    assert !Associated(first.products[|products|], b);
  }

  // ----- GET

  /** `$filter` of productUsers down to the requester's entries. */
  function OwnEntries(users: seq<ProductUser>, email: string): (r: seq<ProductUser>)
    ensures forall k :: 0 <= k < |r| ==> r[k].userEmail == email
    ensures forall u :: u in r <==> u in users && u.userEmail == email
    ensures r == [] <==> forall k :: 0 <= k < |users| ==> users[k].userEmail != email
    decreases |users|
  {
    if users == [] then []
    else
      var rest := OwnEntries(users[1..], email);
      assert users == [users[0]] + users[1..];
      if users[0].userEmail == email then [users[0]] + rest else rest
  }

  /** A product as the requester sees it: only their own user entries. */
  function AsSeenBy(p: Product, email: string): Product {
    p.(productUsers := OwnEntries(p.productUsers, email))
  }

  /** The aggregation `$match` on the requester, then `$filter` of each product's users. */
  function ListForUser(products: seq<Product>, email: string): (r: seq<Product>)
    ensures |r| <= |products|
    ensures forall q :: q in r ==> q.productUsers != [] && forall u :: u in q.productUsers ==> u.userEmail == email
    ensures forall p :: p in products && Associated(p, email) ==> AsSeenBy(p, email) in r
    ensures forall q :: q in r ==> exists p :: p in products && Associated(p, email) && q == AsSeenBy(p, email)
    decreases |products|
  {
    if products == [] then []
    else
      var p, rest := products[0], ListForUser(products[1..], email);
      assert products == [p] + products[1..];
      if Associated(p, email) then [AsSeenBy(p, email)] + rest else rest
  }

  datatype Listing = Listing(status: int, products: seq<Product>)

  /** GET: 401 without a session, otherwise the requester's products. */
  function List(products: seq<Product>, session: Option<Email>): (r: Listing)
    ensures r.status == 401 <==> session.None?
    ensures r.status == 200 <==> session.Some?
    ensures r.status == 401 ==> r.products == []
    ensures r.status == 200 ==> r.products == ListForUser(products, session.value)
  {
    if session.None? then Listing(401, []) else Listing(200, ListForUser(products, session.value))
  }

  // ----- DELETE

  datatype Removed = Removed(status: int, products: seq<Product>)

  /** The response status of DELETE and the collection it leaves behind. */
  function Unassociate(products: seq<Product>, session: Option<Email>, productId: Option<nat>): (r: Removed)
    ensures r.status in {200, 400, 401, 403, 404}
    ensures r.status != 200 ==> r.products == products
    ensures r.status == 401 <==> session.None?
    ensures r.status == 400 <==> session.Some? && productId.None?
    ensures r.status == 404 <==>
      session.Some? && productId.Some? && forall j :: 0 <= j < |products| ==> products[j].id != productId.value
    ensures r.status == 403 <==>
      session.Some? && productId.Some? && FindById(products, productId.value).Some?
      && !Associated(products[FindById(products, productId.value).value], session.value)
    ensures r.status == 200 ==>
      && session.Some? && productId.Some? && FindById(products, productId.value).Some?
      && var i := FindById(products, productId.value).value;
      && var users := products[i].productUsers;
      && FindUser(users, session.value).Some?
      && var k := FindUser(users, session.value).value;
      // the requester was the only user: the product is deleted and the others stay in order
      && (users == [ProductUser(session.value, users[0].userImportDate)] ==> r.products == products[..i] + products[i + 1..])
      // otherwise only the requester's first entry goes; every other field and product stays
      && (users != [ProductUser(session.value, users[0].userImportDate)] ==>
            r.products == products[i := products[i].(productUsers := users[..k] + users[k + 1..])])
  {
    if session.None? then Removed(401, products)
    else if productId.None? then Removed(400, products)
    else match FindById(products, productId.value)
      case None => Removed(404, products)
      case Some(i) =>
        var users := products[i].productUsers;
        match FindUser(users, session.value)
        case None => Removed(403, products)
        case Some(k) =>
          if |users| == 1 && users[0].userEmail == session.value then Removed(200, products[..i] + products[i + 1..])
          else Removed(200, products[i := products[i].(productUsers := users[..k] + users[k + 1..])])
  }

  /** Deleting one product keeps the invariant, and no remaining product has its id. */
  lemma DeleteKeepsInvariant(products: seq<Product>, nextId: nat, i: nat)
    requires StoreInvariant(products, nextId) && i < |products|
    ensures var rest := products[..i] + products[i + 1..];
      StoreInvariant(rest, nextId) && forall q :: q in rest ==> q.id != products[i].id
  {
    var rest := products[..i] + products[i + 1..];
    forall m | 0 <= m < |rest| ensures rest[m] == products[if m < i then m else m + 1] {
    }
    forall q | q in rest ensures q.id != products[i].id {
      var m :| 0 <= m < |rest| && rest[m] == q;
      assert q == products[if m < i then m else m + 1];
    }
  }

  /** Dropping one of several user entries keeps the product well formed, and with distinct emails
      the dropped email no longer appears. */
  lemma DropUserKeepsWellFormed(p: Product, k: nat)
    requires WellFormed(p) && k < |p.productUsers| && |p.productUsers| > 1
    ensures var users := p.productUsers;
      var q := p.(productUsers := users[..k] + users[k + 1..]);
      WellFormed(q) && !Associated(q, users[k].userEmail)
  {
    var users := p.productUsers;
    var left := users[..k] + users[k + 1..];
    forall m | 0 <= m < |left| ensures left[m] == users[if m < k then m else m + 1] {
    }
  }

  /** Removals keep the collection's invariant; in particular a product never loses its last user
      without being deleted. */
  lemma UnassociatePreservesInvariant(products: seq<Product>, nextId: nat, session: Option<Email>, productId: Option<nat>)
    requires StoreInvariant(products, nextId)
    ensures StoreInvariant(Unassociate(products, session, productId).products, nextId)
  {
    var r := Unassociate(products, session, productId);
    if r.status == 200 {
      var i := FindById(products, productId.value).value;
      var users := products[i].productUsers;
      var k := FindUser(users, session.value).value;
      if |users| == 1 && users[0].userEmail == session.value {
        DeleteKeepsInvariant(products, nextId, i);
      } else {
        DropUserKeepsWellFormed(products[i], k);
      }
    }
  }

  /** After a successful removal the requester no longer tracks the product: emails are distinct,
      so the one entry removed was their only one. */
  lemma RemovalDissociates(products: seq<Product>, nextId: nat, session: Option<Email>, productId: Option<nat>)
    requires StoreInvariant(products, nextId)
    requires Unassociate(products, session, productId).status == 200
    ensures forall q :: q in Unassociate(products, session, productId).products && q.id == productId.value
              ==> !Associated(q, session.value)
  {
    var r := Unassociate(products, session, productId);
    var i := FindById(products, productId.value).value;
    var users := products[i].productUsers;
    var k := FindUser(users, session.value).value;
    if |users| == 1 && users[0].userEmail == session.value {
      DeleteKeepsInvariant(products, nextId, i);
    } else {
      DropUserKeepsWellFormed(products[i], k);
      forall q | q in r.products && q.id == productId.value ensures !Associated(q, session.value) {
        var j :| 0 <= j < |r.products| && r.products[j] == q;
        assert j == i;
      }
    }
  }

  // ----- the handlers, changing the collection in place

  /** POST /api/product. */
  method Post(db: ProductCollection, session: Option<Email>, productUrl: string, productWebsite: string,
              scraped: Scrape, parse: string -> Option<int>, now: int) returns (status: int)
    modifies db
    ensures var r := Reconcile(old(db.products), old(db.nextId), session, productUrl, productWebsite, scraped, parse, now);
      status == r.status && db.products == r.products && db.nextId == r.nextId
    ensures old(db.Valid()) ==> db.Valid()
  {
    if db.Valid() {
      ReconcilePreservesInvariant(db.products, db.nextId, session, productUrl, productWebsite, scraped, parse, now);
    }
    if session.None? {
      return 401;
    }
    if !ScraperRuns(productUrl, productWebsite, scraped) {
      return 500;
    }
    if !Truthy(scraped.productName) || !Truthy(scraped.productPrice) {
      return 400;
    }
    var name, email := scraped.productName.value, session.value;
    var price := parse(CleanPrice(scraped.productPrice.value));
    var existing := FindByName(db.products, name);
    if existing.Some? {
      var i := existing.value;
      if Associated(db.products[i], email) {
        return 409;
      }
      if price.None? {
        return 500;
      }
      db.products := db.products[i := Merge(db.products[i], name, price.value, productUrl, productWebsite, email, now)];
      return 200;
    }
    if price.None? {
      return 500;
    }
    db.products := db.products + [NewProduct(db.nextId, name, price.value, productUrl, productWebsite, email, now)];
    db.nextId := db.nextId + 1;
    return 201;
  }

  /** DELETE /api/product. */
  method Delete(db: ProductCollection, session: Option<Email>, productId: Option<nat>) returns (status: int)
    modifies db`products
    ensures var r := Unassociate(old(db.products), session, productId);
      status == r.status && db.products == r.products
    ensures old(db.Valid()) ==> db.Valid()
  {
    if db.Valid() {
      UnassociatePreservesInvariant(db.products, db.nextId, session, productId);
    }
    if session.None? {
      return 401;
    }
    if productId.None? {
      return 400;
    }
    var found := FindById(db.products, productId.value);
    if found.None? {
      return 404;
    }
    var i := found.value;
    var product := db.products[i];
    var userIndex := FindUser(product.productUsers, session.value);
    if userIndex.None? {
      return 403;
    }
    if |product.productUsers| == 1 && product.productUsers[0].userEmail == session.value {
      db.products := db.products[..i] + db.products[i + 1..];
      return 200;
    }
    var k := userIndex.value;
    product := product.(productUsers := product.productUsers[..k] + product.productUsers[k + 1..]);
    db.products := db.products[i := product];
    return 200;
  }
}
