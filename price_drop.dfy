/** updateProductPrices in lib/actions/priceDropAction.ts: the rescan that re-fetches the price of
    every stored product, mails each of its users when the price dropped below the last recorded
    one, and records the new price. What each product's scraper returns is an input (`fetched`,
    one outcome per product, in the order of the collection); the SMTP transport is the oracle
    `accepts`, asked once per attempted mail with the number of mails attempted before it; `now`
    is the time `new Date()` reads. Fetched prices are integers; None stands for a falsy price. */
module PriceDrop {
  import opened Common
  import opened Decimal
  import opened ProductModel
  import opened Scrapers

  /** What calling the scraper on a product's URL gave: an exception, or a price that may be falsy. */
  datatype Fetch = FetchThrew | Fetched(productPrice: Option<int>)

  datatype Mail = Mail(to: string, subject: string, text: string)

  /** How one product's turn ended: its new price was saved, the price was falsy and nothing was
      done, or an exception was caught and logged. */
  datatype Outcome = Updated | Skipped | Failed

  /** Which export of the scraper module the rescan takes. */
  datatype Export = DefaultExport | NamedExport

  function ExportName(website: string, via: Export): string {
    match via
    case DefaultExport => "default"
    case NamedExport => ExportOf(website)
  }

  /** The alert for one user of a product whose price dropped to `price`. */
  function DropMail(p: Product, price: int, user: ProductUser): (m: Mail)
    ensures m.to == user.userEmail
    ensures m.subject == "Price Drop Alert for " + p.productName
  {
    Mail(user.userEmail, "Price Drop Alert for " + p.productName,
         "The price of " + p.productName + " has dropped to " + IntToString(price) + ". Check it out at " + p.productUrl)
  }

  /** One alert per user entry of the product, in the order of its users. */
  function DropMails(p: Product, price: int): (r: seq<Mail>)
    ensures |r| == |p.productUsers|
    ensures forall k :: 0 <= k < |r| ==> r[k] == DropMail(p, price, p.productUsers[k])
  {
    seq(|p.productUsers|, k requires 0 <= k < |p.productUsers| => DropMail(p, price, p.productUsers[k]))
  }

  /** The history has a last entry and the new price is strictly below it. */
  predicate IsDrop(history: seq<PriceEntry>, price: int) {
    history != [] && price < Last(history).productPrice
  }

  /** The transport accepts the j-th mail of a run of sends that starts at attempt `start`. */
  predicate AcceptsAt(accepts: nat -> bool, start: nat, j: nat) {
    accepts(start + j)
  }

  /** The mails handed to the transport, and whether every one of them was accepted. */
  datatype Delivery = Delivery(attempted: seq<Mail>, delivered: bool)

  /** Sending `mails` one after another; the first refusal throws, so the mails after it are never
      attempted. The mail at position j is the j-th attempt after `start`. */
  function Notify(mails: seq<Mail>, accepts: nat -> bool, start: nat): (r: Delivery)
    ensures |r.attempted| <= |mails| && r.attempted == mails[..|r.attempted|]
    ensures r.delivered <==> forall j :: 0 <= j < |mails| ==> AcceptsAt(accepts, start, j)
    ensures r.delivered ==> r.attempted == mails
    ensures !r.delivered ==>
      && r.attempted != []
      && !AcceptsAt(accepts, start, |r.attempted| - 1)
      && forall j :: 0 <= j < |r.attempted| - 1 ==> AcceptsAt(accepts, start, j)
    decreases |mails|
  {
    if mails == [] then Delivery([], true)
    else
      var n := |mails| - 1;
      var r := Notify(mails[..n], accepts, start);
      assert mails[..n][..|r.attempted|] == mails[..|r.attempted|];
      if !r.delivered then r
      else Delivery(r.attempted + [mails[n]], AcceptsAt(accepts, start, n))
  }

  /** One product's turn, as a value. */
  datatype Step = Step(product: Product, attempted: seq<Mail>, outcome: Outcome)

  /** One product's turn of the loop body: resolve the scraper, fetch, alert on a drop, append the
      price to the history, set the current price, save. A save of a product the schema rejects
      throws. Anything thrown leaves the stored product as it was. */
  function Process(p: Product, f: Fetch, accepts: nat -> bool, start: nat, now: int, via: Export): (s: Step)
    // per-product failure isolation: nothing is stored unless the turn completes
    ensures s.outcome != Updated ==> s.product == p
    ensures s.outcome == Skipped ==> s.attempted == []
    ensures (!Resolves(p.productWebsite, ExportName(p.productWebsite, via)) || f.FetchThrew?) ==> s == Step(p, [], Failed)
    ensures (Resolves(p.productWebsite, ExportName(p.productWebsite, via)) && f == Fetched(None)) ==> s == Step(p, [], Skipped)
    // alerts go out only on a strict drop, one per user in order, until one is refused
    ensures s.attempted != [] ==> f.Fetched? && f.productPrice.Some? && IsDrop(p.productPriceHistory, f.productPrice.value)
    ensures |s.attempted| <= |p.productUsers|
    ensures f.Fetched? && f.productPrice.Some? ==> s.attempted == DropMails(p, f.productPrice.value)[..|s.attempted|]
    ensures s.outcome == Updated ==>
      && f.Fetched? && f.productPrice.Some?
      && var price := f.productPrice.value;
      // exactly one entry appended, earlier entries untouched, and the price set to it
      && s.product == p.(productPriceHistory := p.productPriceHistory + [PriceEntry(price, now)], productPrice := price)
      && (IsDrop(p.productPriceHistory, price) ==> s.attempted == DropMails(p, price))
      && (!IsDrop(p.productPriceHistory, price) ==> s.attempted == [])
    // a fetched price alerts every user on a drop, in order, stopping at the first refused mail
    ensures Resolves(p.productWebsite, ExportName(p.productWebsite, via)) && f.Fetched? && f.productPrice.Some? ==>
      s.attempted == (if IsDrop(p.productPriceHistory, f.productPrice.value)
                      then Notify(DropMails(p, f.productPrice.value), accepts, start).attempted else [])
    // the turn completes exactly when the price is fetched, the product passes the schema, and on a
    // drop every alert is accepted, whether the price fell, held or rose
    ensures s.outcome == Updated <==>
      && Resolves(p.productWebsite, ExportName(p.productWebsite, via)) && f.Fetched? && f.productPrice.Some?
      && Conforms(p)
      && (IsDrop(p.productPriceHistory, f.productPrice.value) ==>
            forall j :: 0 <= j < |p.productUsers| ==> AcceptsAt(accepts, start, j))
  {
    var f := if Resolves(p.productWebsite, ExportName(p.productWebsite, via)) then f else FetchThrew;
    match f
    case FetchThrew => Step(p, [], Failed)
    case Fetched(None) => Step(p, [], Skipped)
    case Fetched(Some(price)) =>
      var d := if IsDrop(p.productPriceHistory, price) then Notify(DropMails(p, price), accepts, start)
               else Delivery([], true);
      if !d.delivered then Step(p, d.attempted, Failed)
      else
        var entry := CastPriceEntry(Some(price), None, now).value;
        var q := p.(productPriceHistory := p.productPriceHistory + [entry], productPrice := price);
        if Conforms(q) then Step(q, d.attempted, Updated) else Step(p, d.attempted, Failed)
  }

  /** What a whole rescan leaves: the stored products, every mail attempted, and each product's
      outcome. */
  datatype Cycle = Cycle(products: seq<Product>, outbox: seq<Mail>, report: seq<Outcome>)

  /** The first n turns of the loop over `Product.find({})`: each product before n is processed
      once, in order, each turn numbering its mails after those of the turns before it. */
  function RescanUpTo(products: seq<Product>, fetched: seq<Fetch>, n: nat, accepts: nat -> bool, now: int,
                      via: Export): (c: Cycle)
    requires |fetched| == |products| && n <= |products|
    ensures |c.products| == n && |c.report| == n
    decreases n
  {
    if n == 0 then Cycle([], [], [])
    else
      var c := RescanUpTo(products, fetched, n - 1, accepts, now, via);
      var s := Process(products[n - 1], fetched[n - 1], accepts, |c.outbox|, now, via);
      Cycle(c.products + [s.product], c.outbox + s.attempted, c.report + [s.outcome])
  }

  /** The whole loop: one turn for every product the query returned. */
  function Rescan(products: seq<Product>, fetched: seq<Fetch>, accepts: nat -> bool, now: int, via: Export): (c: Cycle)
    requires |fetched| == |products|
    ensures |c.products| == |products| && |c.report| == |products|
  {
    RescanUpTo(products, fetched, |products|, accepts, now, via)
  }

  /** `whole` continues `part`: its products, outcomes and mails begin with those of `part`. */
  predicate Extends(whole: Cycle, part: Cycle)
  {
    && |part.products| <= |whole.products| && whole.products[..|part.products|] == part.products
    && |part.report| <= |whole.report| && whole.report[..|part.report|] == part.report
    && |part.outbox| <= |whole.outbox| && whole.outbox[..|part.outbox|] == part.outbox
  }

  /** Turns are never revisited: the products, outcomes and mails of the first i turns are a
      prefix of those of the first n. */
  lemma {:induction false} RescanPrefix(products: seq<Product>, fetched: seq<Fetch>, accepts: nat -> bool, now: int,
                                        via: Export, i: nat, n: nat)
    requires |fetched| == |products| && i <= n <= |products|
    ensures Extends(RescanUpTo(products, fetched, n, accepts, now, via), RescanUpTo(products, fetched, i, accepts, now, via))
    decreases n
  {
    var whole, part := RescanUpTo(products, fetched, n, accepts, now, via),
                       RescanUpTo(products, fetched, i, accepts, now, via);
    if i == n {
      assert whole.products[..i] == whole.products && whole.report[..i] == whole.report;
      assert whole.outbox[..|whole.outbox|] == whole.outbox;
    } else {
      RescanPrefix(products, fetched, accepts, now, via, i, n - 1);
      RescanUpToStep(products, fetched, n, accepts, now, via);
      ExtendsTransitive(whole, RescanUpTo(products, fetched, n - 1, accepts, now, via), part);
    }
  }

  /** One more turn extends the products, outcomes and mails of the turns before it. */
  lemma RescanUpToStep(products: seq<Product>, fetched: seq<Fetch>, n: nat, accepts: nat -> bool, now: int,
                       via: Export)
    requires |fetched| == |products| && 0 < n <= |products|
    ensures Extends(RescanUpTo(products, fetched, n, accepts, now, via), RescanUpTo(products, fetched, n - 1, accepts, now, via))
  {
    var whole, before := RescanUpTo(products, fetched, n, accepts, now, via),
                         RescanUpTo(products, fetched, n - 1, accepts, now, via);
    var s := Process(products[n - 1], fetched[n - 1], accepts, |before.outbox|, now, via);
    assert whole.outbox == before.outbox + s.attempted;
    assert whole.products[..n - 1] == before.products;
  }

  /** Extending is transitive. */
  lemma ExtendsTransitive(a: Cycle, b: Cycle, c: Cycle)
    requires Extends(a, b) && Extends(b, c)
    ensures Extends(a, c)
  {
    assert a.products[..|c.products|] == a.products[..|b.products|][..|c.products|];
    assert a.report[..|c.report|] == a.report[..|b.report|][..|c.report|];
    assert a.outbox[..|c.outbox|] == a.outbox[..|b.outbox|][..|c.outbox|];
  }

  /** Each product's fate is its own turn's: product i is stored and reported as `Process` leaves
      it, given the mails attempted by the turns before it. */
  lemma RescanAt(products: seq<Product>, fetched: seq<Fetch>, accepts: nat -> bool, now: int, via: Export, i: nat)
    requires |fetched| == |products| && i < |products|
    ensures var c := Rescan(products, fetched, accepts, now, via);
      var s := Process(products[i], fetched[i], accepts,
                       |RescanUpTo(products, fetched, i, accepts, now, via).outbox|, now, via);
      c.products[i] == s.product && c.report[i] == s.outcome
  {
    RescanPrefix(products, fetched, accepts, now, via, i + 1, |products|);
    var part := RescanUpTo(products, fetched, i + 1, accepts, now, via);
    var c := Rescan(products, fetched, accepts, now, via);
    assert c.products[i] == c.products[..i + 1][i] == part.products[i];
    assert c.report[i] == c.report[..i + 1][i] == part.report[i];
  }

  /** Per-product failure isolation: a product whose turn did not complete is stored exactly as
      before, and an updated product only gained one history entry, at the end, and took its price. */
  lemma RescanIsolatesProducts(products: seq<Product>, fetched: seq<Fetch>, accepts: nat -> bool, now: int, via: Export)
    requires |fetched| == |products|
    ensures var c := Rescan(products, fetched, accepts, now, via);
      && (forall i :: 0 <= i < |products| && c.report[i] != Updated ==> c.products[i] == products[i])
      && forall i :: 0 <= i < |products| && c.report[i] == Updated ==>
        && fetched[i].Fetched? && fetched[i].productPrice.Some?
        && c.products[i] == products[i].(
             productPriceHistory := products[i].productPriceHistory + [PriceEntry(fetched[i].productPrice.value, now)],
             productPrice := fetched[i].productPrice.value)
  {
    forall i | 0 <= i < |products| {
      RescanAt(products, fetched, accepts, now, via, i);
    }
  }

  /** A rescan keeps the collection's invariant: names, ids, urls and users are untouched, and an
      updated product's price is its new last history entry. */
  lemma RescanPreservesInvariant(products: seq<Product>, nextId: nat, fetched: seq<Fetch>, accepts: nat -> bool,
                                 now: int, via: Export)
    requires |fetched| == |products| && StoreInvariant(products, nextId)
    ensures StoreInvariant(Rescan(products, fetched, accepts, now, via).products, nextId)
  {
    var c := Rescan(products, fetched, accepts, now, via);
    RescanIsolatesProducts(products, fetched, accepts, now, via);
    forall i | 0 <= i < |products|
      ensures WellFormed(c.products[i]) && c.products[i].id == products[i].id
      ensures c.products[i].productName == products[i].productName
    {
      if c.report[i] == Updated {
        var q := c.products[i];
        assert Last(q.productPriceHistory).productPrice == q.productPrice;
      }
    }
  }

  /** When no fetched price is below its product's last recorded price, none of the first n turns
      attempts a mail. */
  lemma {:induction false} SteadyPricesSendNoMail(products: seq<Product>, fetched: seq<Fetch>, n: nat,
                                                  accepts: nat -> bool, now: int, via: Export)
    requires |fetched| == |products| && n <= |products|
    requires forall i :: 0 <= i < |products| && fetched[i].Fetched? && fetched[i].productPrice.Some?
               ==> !IsDrop(products[i].productPriceHistory, fetched[i].productPrice.value)
    ensures RescanUpTo(products, fetched, n, accepts, now, via).outbox == []
    decreases n
  {
    if n > 0 {
      SteadyPricesSendNoMail(products, fetched, n - 1, accepts, now, via);
    }
  }

  /** `m` is the drop alert for one of the users of product i, whose fetched price is below its
      last recorded price. */
  predicate AlertFor(products: seq<Product>, fetched: seq<Fetch>, i: nat, m: Mail)
    requires |fetched| == |products|
  {
    && i < |products|
    && fetched[i].Fetched? && fetched[i].productPrice.Some?
    && IsDrop(products[i].productPriceHistory, fetched[i].productPrice.value)
    && m in DropMails(products[i], fetched[i].productPrice.value)
  }

  /** Every mail the first n turns attempt is a drop alert to a user of some product whose fetched
      price is below its last recorded price. */
  lemma {:induction false} AlertsOnlyOnDrops(products: seq<Product>, fetched: seq<Fetch>, n: nat,
                                             accepts: nat -> bool, now: int, via: Export)
    requires |fetched| == |products| && n <= |products|
    ensures forall m :: m in RescanUpTo(products, fetched, n, accepts, now, via).outbox ==>
      exists i: nat :: AlertFor(products, fetched, i, m)
    decreases n
  {
    if n > 0 {
      var c := RescanUpTo(products, fetched, n - 1, accepts, now, via);
      var s := Process(products[n - 1], fetched[n - 1], accepts, |c.outbox|, now, via);
      AlertsOnlyOnDrops(products, fetched, n - 1, accepts, now, via);
      TurnMailsAreAlerts(products, fetched, n - 1, accepts, |c.outbox|, now, via);
      assert RescanUpTo(products, fetched, n, accepts, now, via).outbox == c.outbox + s.attempted;
    }
  }

  /** Every mail one turn attempts is a drop alert for that turn's product. */
  lemma TurnMailsAreAlerts(products: seq<Product>, fetched: seq<Fetch>, i: nat, accepts: nat -> bool, start: nat,
                           now: int, via: Export)
    requires |fetched| == |products| && i < |products|
    ensures forall m :: m in Process(products[i], fetched[i], accepts, start, now, via).attempted ==>
      AlertFor(products, fetched, i, m)
  {
    var s := Process(products[i], fetched[i], accepts, start, now, via);
    forall m | m in s.attempted
      ensures AlertFor(products, fetched, i, m)
    {
      var mails := DropMails(products[i], fetched[i].productPrice.value);
      assert s.attempted == mails[..|s.attempted|];
    }
  }

  /** The intended turn, taking the scraper by its exported name: a tracked "decathlon" product
      whose fetched price is below its last recorded price, with the transport accepting every
      alert, mails each of its users in order, gains exactly one history entry and takes the price. */
  lemma NamedExportRecordsDrop(p: Product, price: int, accepts: nat -> bool, start: nat, now: int)
    requires p.productWebsite == "decathlon" && Conforms(p)
    requires IsDrop(p.productPriceHistory, price)
    requires forall j :: 0 <= j < |p.productUsers| ==> AcceptsAt(accepts, start, j)
    ensures var s := Process(p, Fetched(Some(price)), accepts, start, now, NamedExport);
      && s.outcome == Updated
      && s.attempted == DropMails(p, price)
      && s.product == p.(productPriceHistory := p.productPriceHistory + [PriceEntry(price, now)], productPrice := price)
  {
    assert p.productWebsite in Sites;
    assert Resolves(p.productWebsite, ExportName(p.productWebsite, NamedExport));
  }

  /** The same drop inside the corrected rescan: with every mail accepted, product i is stored with
      the new entry and reported updated, and its alerts follow the mails of the turns before it. */
  lemma CorrectedRescanRecordsDrop(products: seq<Product>, fetched: seq<Fetch>, accepts: nat -> bool, now: int,
                                   i: nat, price: int)
    requires |fetched| == |products| && i < |products|
    requires products[i].productWebsite == "decathlon" && Conforms(products[i])
    requires fetched[i] == Fetched(Some(price)) && IsDrop(products[i].productPriceHistory, price)
    requires forall n: nat :: accepts(n)
    ensures var c, start := Rescan(products, fetched, accepts, now, NamedExport),
                            |RescanUpTo(products, fetched, i, accepts, now, NamedExport).outbox|;
      && c.report[i] == Updated
      && c.products[i] == products[i].(productPriceHistory := products[i].productPriceHistory + [PriceEntry(price, now)],
                                       productPrice := price)
      && start + |products[i].productUsers| <= |c.outbox|
      && c.outbox[start..start + |products[i].productUsers|] == DropMails(products[i], price)
  {
    var before := RescanUpTo(products, fetched, i, accepts, now, NamedExport);
    var s := Process(products[i], fetched[i], accepts, |before.outbox|, now, NamedExport);
    NamedExportRecordsDrop(products[i], price, accepts, |before.outbox|, now);
    RescanAt(products, fetched, accepts, now, NamedExport, i);
    RescanPrefix(products, fetched, accepts, now, NamedExport, i + 1, |products|);
    var part := RescanUpTo(products, fetched, i + 1, accepts, now, NamedExport);
    assert part.outbox == before.outbox + s.attempted;
    SliceAfterPrefix(Rescan(products, fetched, accepts, now, NamedExport).outbox, before.outbox, s.attempted);
  }

  /** What follows a known prefix inside a longer prefix. */
  lemma SliceAfterPrefix<T>(a: seq<T>, b: seq<T>, c: seq<T>)
    requires |b + c| <= |a| && a[..|b + c|] == b + c
    ensures |b| + |c| <= |a| && a[|b|..|b| + |c|] == c
  {
    assert a[|b|..|b| + |c|] == a[..|b + c|][|b|..];
  }

  /** The rescan with the import as written: the scraper module of every site exports only a
      named function, so the `default` export is undefined and calling it throws for every
      product. Every turn fails, nothing is mailed and nothing is stored. */
  lemma AsWrittenRescanChangesNothing(products: seq<Product>, fetched: seq<Fetch>, accepts: nat -> bool, now: int)
    requires |fetched| == |products|
    ensures var c := Rescan(products, fetched, accepts, now, DefaultExport);
      c.products == products && c.outbox == [] && forall i :: 0 <= i < |c.report| ==> c.report[i] == Failed
  {
    forall website | Resolves(website, ExportName(website, DefaultExport)) ensures false {
      ResolvedSiteIsNamed(website, "default");
    }
    DefaultExportFailsEveryTurn(products, fetched, |products|, accepts, now);
    RescanIsolatesProducts(products, fetched, accepts, now, DefaultExport);
  }

  /** When the export the rescan asks for resolves for no site, each of the first n turns fails
      without mail. */
  lemma {:induction false} DefaultExportFailsEveryTurn(products: seq<Product>, fetched: seq<Fetch>, n: nat,
                                                       accepts: nat -> bool, now: int)
    requires |fetched| == |products| && n <= |products|
    requires forall website :: !Resolves(website, ExportName(website, DefaultExport))
    ensures var c := RescanUpTo(products, fetched, n, accepts, now, DefaultExport);
      c.outbox == [] && forall i :: 0 <= i < n ==> c.report[i] == Failed
    decreases n
  {
    if n > 0 {
      DefaultExportFailsEveryTurn(products, fetched, n - 1, accepts, now);
    }
  }

  /** After the first i turns: the collection holds the products those turns saved followed by the
      products not yet reached, and the mails and outcomes are theirs. */
  predicate SavedUpTo(stored: seq<Product>, products: seq<Product>, fetched: seq<Fetch>, i: nat,
                      accepts: nat -> bool, now: int, outbox: seq<Mail>, report: seq<Outcome>)
    requires |fetched| == |products| && i <= |products|
  {
    var c := RescanUpTo(products, fetched, i, accepts, now, NamedExport);
    stored == c.products + products[i..] && outbox == c.outbox && report == c.report
  }

  /** The rescan with the scraper taken by its exported name, updating the collection product by
      product as each turn's `save` does. */
  method UpdateProductPrices(db: ProductCollection, fetched: seq<Fetch>, accepts: nat -> bool, now: int)
      returns (outbox: seq<Mail>, report: seq<Outcome>)
    requires |fetched| == |db.products|
    modifies db`products
    ensures Rescan(old(db.products), fetched, accepts, now, NamedExport) == Cycle(db.products, outbox, report)
    ensures old(db.Valid()) ==> db.Valid()
  {
    var products := db.products;
    ghost var wasValid := db.Valid();
    outbox, report := [], [];
    for i := 0 to |products|
      invariant SavedUpTo(db.products, products, fetched, i, accepts, now, outbox, report)
    {
      outbox, report := SaveTurn(db, products, fetched, i, accepts, now, outbox, report);
    }
    if wasValid {
      RescanPreservesInvariant(products, db.nextId, fetched, accepts, now, NamedExport);
    }
  }

  /** One pass of the loop: run product i's turn and, when it completes, save the product in
      place. */
  method SaveTurn(db: ProductCollection, products: seq<Product>, fetched: seq<Fetch>, i: nat, accepts: nat -> bool,
                  now: int, outbox: seq<Mail>, report: seq<Outcome>) returns (outbox': seq<Mail>, report': seq<Outcome>)
    requires |fetched| == |products| && i < |products|
    requires SavedUpTo(db.products, products, fetched, i, accepts, now, outbox, report)
    modifies db`products
    ensures SavedUpTo(db.products, products, fetched, i + 1, accepts, now, outbox', report')
  {
    ghost var done := RescanUpTo(products, fetched, i, accepts, now, NamedExport);
    var step := Turn(products[i], fetched[i], accepts, |outbox|, now);
    ReplaceFirst(done.products, products[i..], step.product);
    assert products[i..][1..] == products[i + 1..];
    outbox' := outbox + step.attempted;
    report' := report + [step.outcome];
    if step.outcome == Updated {
      db.products := db.products[i := step.product];
    }
  }

  /** Overwriting the element that follows a prefix. */
  lemma ReplaceFirst<T>(prefix: seq<T>, rest: seq<T>, x: T)
    requires rest != []
    ensures (prefix + rest)[|prefix| := x] == prefix + [x] + rest[1..]
    ensures prefix + rest == prefix + [rest[0]] + rest[1..]
  {
  }

  /** The body of the loop for one product: the try block, with its nested loop over the users. */
  method Turn(p: Product, f: Fetch, accepts: nat -> bool, start: nat, now: int) returns (s: Step)
    ensures s == Process(p, f, accepts, start, now, NamedExport)
  {
    if !Resolves(p.productWebsite, ExportOf(p.productWebsite)) || f.FetchThrew? {
      return Step(p, [], Failed);
    }
    if f.productPrice.None? {
      return Step(p, [], Skipped);
    }
    var price := f.productPrice.value;
    var attempted: seq<Mail> := [];
    if IsDrop(p.productPriceHistory, price) {
      var mails := DropMails(p, price);
      var j := 0;
      while j < |p.productUsers|
        invariant j <= |p.productUsers|
        invariant attempted == mails[..j]
        invariant forall k :: 0 <= k < j ==> AcceptsAt(accepts, start, k)
      {
        var mail := DropMail(p, price, p.productUsers[j]);
        attempted := attempted + [mail];
        if !AcceptsAt(accepts, start, j) {
          assert attempted == mails[..j + 1];
          NotifyStopsAtRefusal(mails, accepts, start, j);
          return Step(p, attempted, Failed);
        }
        j := j + 1;
      }
      assert mails[..j] == mails;
    }
    var q := p.(productPriceHistory := p.productPriceHistory + [PriceEntry(price, now)], productPrice := price);
    if !Conforms(q) {
      return Step(p, attempted, Failed);
    }
    return Step(q, attempted, Updated);
  }

  /** Sending stops at the first refused mail, which is the last one attempted. */
  lemma NotifyStopsAtRefusal(mails: seq<Mail>, accepts: nat -> bool, start: nat, j: nat)
    requires j < |mails| && !AcceptsAt(accepts, start, j)
    requires forall k :: 0 <= k < j ==> AcceptsAt(accepts, start, k)
    ensures Notify(mails, accepts, start) == Delivery(mails[..j + 1], false)
  {
    assert |Notify(mails, accepts, start).attempted| == j + 1;
  }
}
