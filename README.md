# ecomdata price tracker, modelled in Dafny

A Dafny model of the core of ecomdata, a Next.js application that tracks retail product prices.
Signed-in users import products by URL. A scraper reads the product's name and price. The
application keeps one record per product name, with its price history and the users tracking it.
A rescan routine re-reads every price and mails the product's users when the price drops. Nothing
in the repository runs it: the function is not exported, and its only call is commented out
(lib/actions/priceDropAction.ts:15, 50-55). The model covers the routine itself.

The model covers:

- the product records and the rules the schema enforces (`ProductModel`);
- the three product endpoints (`ProductRoute`):
  - import or merge (POST);
  - listing the requester's products (GET);
  - removing the requester from a product (DELETE);
- the rescan loop (`PriceDrop`);
- the account schema and the registration endpoint (`UserModel`, `RegisterRoute`);
- the date formatter used to display price history dates (`DateFormat`, `Decimal`).

`Common` holds an option type and the first-match search that the database lookups and
`findIndex` perform. `Scrapers` says which scraper modules exist and how a dynamic import resolves
one of them.

Each endpoint is a function (`Reconcile`, `List`, `Unassociate`, `Register`) that gives the
response status and the collection afterwards, with its behaviour stated in its postconditions.
The endpoints that change the store also have a method over the collection object
(`ProductRoute.Post`, `ProductRoute.Delete`, `RegisterRoute.Post`). It changes the stored sequence
in place and is proved equal to that function. The read-only GET has only its function.

The collection objects keep an invariant (`StoreInvariant`, `UserStoreInvariant`), and every
operation is proved to preserve it:

- product names are unique;
- ids are distinct;
- every stored product has at least one user, with no user listed twice;
- every stored product's price equals its last history entry;
- account emails are unique.

The rescan works the same way. `Process` is one product's turn and `Rescan` the whole loop; the
method `UpdateProductPrices`, with its inner `Turn`, is proved to compute `Rescan`.

Inputs to the model:

- **Session:** the signed-in user's email, if any.
- **Scraper outcome:** what the scraper returned, or that it threw.
- **`parseFloat`:** a parameter; None stands for NaN.
- **Mail transport:** an oracle that accepts or refuses each attempted mail, asked with the number
  of mails attempted before it.
- **Password hash:** a function parameter.
- **Clock:** the current time, as an integer.

Prices are integers, for example centimes.

## Model

| member | source | states |
|---|---|---|
| Common.FirstIndex | app/api/product/route.ts:221 | the index found is the first whose element matches; None exactly when no element matches |
| ProductModel.CastPriceEntry | lib/models/productModel.ts:29-41 | a history entry exists only with a price; its log date is the given one, or the current time when none is given |
| ProductModel.CastProductUser | lib/models/productModel.ts:42-54 | a user entry exists only with a non-empty email; its import date is the given one, or the current time when none is given |
| ProductModel.ProductCollection.constructor | lib/models/productModel.ts:12-55 | a new collection is empty, hands out ids from 0 and satisfies the store invariant |
| ProductRoute.CleanPrice | app/api/product/route.ts:34 | the cleaned price is no longer than the text and holds only digits, '.' and '-' |
| ProductRoute.CleanPriceKeepsEveryKeptChar | app/api/product/route.ts:34 | each digit, '.' and '-' occurs in the cleaned text exactly as often as in the input |
| ProductRoute.CleanPriceAppend | app/api/product/route.ts:34 | cleaning a concatenation is the concatenation of the cleanings, so the kept characters keep their order |
| ProductRoute.CleanPriceKeepsCleanText | app/api/product/route.ts:34 | text made only of digits, '.' and '-' is returned unchanged |
| ProductRoute.CleanPriceIdempotent | app/api/product/route.ts:34 | cleaning twice gives the same text as cleaning once |
| ProductRoute.CleanPriceDropsUnkept | app/api/product/route.ts:34 | text with no digit, '.' or '-' cleans to the empty text |
| ProductRoute.DecimalCommaJoinsDigits | app/api/product/route.ts:34 | in "whole,fraction suffix" the comma and the suffix vanish, and the fraction's digits follow the whole part's |
| ProductRoute.Merge | app/api/product/route.ts:52-75 | the merged document keeps its id, takes the scraped name, price, url and website, restarts its history at the new price, lists the requester after the earlier users, and stays well formed when the requester was not yet listed |
| ProductRoute.NewProduct | app/api/product/route.ts:89-108 | the new document has the given id and scraped fields, one history entry at the price, the requester as its only user, and is well formed when its fields are non-empty |
| ProductRoute.Reconcile | app/api/product/route.ts:10-126 | 401 exactly without a session; 500 exactly when the scraper cannot run, or when the parsed price is NaN and the requester does not already track the product; 400 exactly when the name or price is missing or empty; 409 exactly when the product of that name already lists the requester; none of these changes the store; 201 appends one product with a fresh id, a one-entry history at the parsed price and the requester as its only user; 200 overwrites name, price, url and website, replaces the history by one entry at the new price, appends the requester after the earlier users, and leaves every other product unchanged |
| ProductRoute.ReconcilePreservesInvariant | app/api/product/route.ts:38-115 | an import keeps names unique, ids distinct and below the next id, and every product well formed |
| ProductRoute.MergeKeepsInvariant | app/api/product/route.ts:51-75 | merging a new user into the product of that name keeps the store invariant |
| ProductRoute.CreateKeepsInvariant | app/api/product/route.ts:88-108 | appending a product under a new name and the next id keeps the store invariant |
| ProductRoute.RepeatImportConflicts | app/api/product/route.ts:40-49 | importing the same product again as the same user gives 409 and changes nothing |
| ProductRoute.TwoUsersShareOneProduct | app/api/product/route.ts:38-84 | two users importing the same product leave one product of that name, listing both users in import order |
| ProductRoute.OwnEntries | app/api/product/route.ts:149-153 | the filtered user list holds exactly the requester's entries of the product |
| ProductRoute.ListForUser | app/api/product/route.ts:142-167 | every product the requester tracks is returned, with its users filtered to the requester; every returned product comes from one the requester tracks and lists only the requester |
| ProductRoute.List | app/api/product/route.ts:128-174 | 401 exactly without a session, with no products; 200 exactly with a session, with the requester's listing |
| ProductRoute.Unassociate | app/api/product/route.ts:186-250 | 401 exactly without a session, 400 exactly without a product id, 404 exactly when no product has the id, 403 exactly when the product does not list the requester, none changing the store; on 200 a product whose only user is the requester is deleted with the other products kept in order, otherwise only the requester's first entry is removed and everything else stays |
| ProductRoute.DeleteKeepsInvariant | app/api/product/route.ts:231-232 | deleting a product keeps the store invariant, and no remaining product has its id |
| ProductRoute.DropUserKeepsWellFormed | app/api/product/route.ts:241-243 | removing one of several user entries keeps the product well formed, and the removed email is no longer listed |
| ProductRoute.UnassociatePreservesInvariant | app/api/product/route.ts:186-250 | a removal keeps the store invariant, so no product is left without users |
| ProductRoute.RemovalDissociates | app/api/product/route.ts:231-250 | after a successful removal no product with that id lists the requester |
| ProductRoute.Post | app/api/product/route.ts:10-126 | the handler changes the collection as Reconcile says, returns its status and keeps the collection valid |
| ProductRoute.Delete | app/api/product/route.ts:186-260 | the handler changes the collection as Unassociate says, returns its status and keeps the collection valid |
| Scrapers.ResolvedSiteIsNamed | lib/scrappers/decathlonScrapper.ts:8 | a scraper that resolves has a non-empty site name, and it is never the `default` export |
| PriceDrop.DropMail | lib/actions/priceDropAction.ts:30-35 | an alert is addressed to the user entry's email and its subject names the product |
| PriceDrop.IsDrop | lib/actions/priceDropAction.ts:26-28 | a price is a drop exactly when the history has a last entry and the price is strictly below that entry's price; an empty history, an equal price or a higher one is no drop |
| PriceDrop.DropMails | lib/actions/priceDropAction.ts:29-36 | one alert per user entry, in the order of the entries |
| PriceDrop.Notify | lib/actions/priceDropAction.ts:29-36 | the mails attempted are a prefix of the alerts; all are sent exactly when every attempt is accepted; otherwise the last one attempted is the first refused |
| PriceDrop.NotifyStopsAtRefusal | lib/actions/priceDropAction.ts:29-36 | when attempt j is the first refused, exactly the first j + 1 alerts are attempted and the turn fails |
| PriceDrop.Process | lib/actions/priceDropAction.ts:21-46 | a scraper that does not resolve or throws fails the turn with no mail and no change; a falsy price is skipped with no mail and no change; mails go out only on a strict drop below the last history entry, one per user in order; an updated product has exactly one entry appended at the new price and the current price set to it, with one alert per user when the price dropped; a turn that does not complete stores nothing; with the scraper resolved and a price fetched, the mails attempted are the alerts up to and including the first refused one on a drop, and none otherwise; the turn ends updated exactly when the scraper resolves, a price is fetched, the product passes the schema and, on a drop, the transport accepts every alert, whether the price fell, held or rose |
| PriceDrop.Rescan | lib/actions/priceDropAction.ts:18-47 | the loop gives one stored product and one outcome per product returned by the query |
| PriceDrop.RescanUpTo | lib/actions/priceDropAction.ts:18-47 | the first n turns give one stored product and one outcome for each of the first n products |
| PriceDrop.RescanPrefix | lib/actions/priceDropAction.ts:20 | earlier turns are never revisited: the products, outcomes and mails of the first i turns are a prefix of those of the first n |
| PriceDrop.RescanAt | lib/actions/priceDropAction.ts:20-46 | each product is stored and reported as its own turn leaves it, given the mails attempted before it |
| PriceDrop.RescanIsolatesProducts | lib/actions/priceDropAction.ts:21-46 | a product whose turn failed or was skipped is stored unchanged; an updated one only gains one history entry at the end and takes its price |
| PriceDrop.RescanPreservesInvariant | lib/actions/priceDropAction.ts:38-40 | the rescan keeps the store invariant; in particular each price equals its last history entry |
| PriceDrop.SteadyPricesSendNoMail | lib/actions/priceDropAction.ts:26-28 | when no fetched price is below its last history entry, no turn attempts a mail |
| PriceDrop.TurnMailsAreAlerts | lib/actions/priceDropAction.ts:26-36 | every mail one product's turn attempts is an alert for one of that product's users, sent only when its fetched price is below its last recorded price |
| PriceDrop.AlertsOnlyOnDrops | lib/actions/priceDropAction.ts:26-36 | every mail attempted is an alert for a product whose fetched price dropped, addressed to one of its users |
| PriceDrop.NamedExportRecordsDrop | lib/actions/priceDropAction.ts:21-40 | with the export taken by its name, a "decathlon" product whose fetched price is below its last entry, with every alert accepted, is updated, mails each of its users in order and gains exactly the entry at the new price |
| PriceDrop.CorrectedRescanRecordsDrop | lib/actions/priceDropAction.ts:20-46 | inside the corrected rescan, with every mail accepted, that product is stored with the new entry and reported updated, and its alerts follow the mails of the turns before it |
| PriceDrop.AsWrittenRescanChangesNothing | lib/actions/priceDropAction.ts:22-23 | taking the `default` export, every turn fails: nothing is mailed and nothing is stored |
| PriceDrop.DefaultExportFailsEveryTurn | lib/actions/priceDropAction.ts:22 | when the requested export resolves for no site, every turn fails and no mail goes out |
| PriceDrop.UpdateProductPrices | lib/actions/priceDropAction.ts:15-48 | the loop, saving each product in place, leaves the collection, mails and outcomes that Rescan gives, and keeps the collection valid |
| PriceDrop.SaveTurn | lib/actions/priceDropAction.ts:21-40 | one pass of the loop runs the product's turn and saves it in place when it completes, extending the first i turns to i + 1 |
| PriceDrop.Turn | lib/actions/priceDropAction.ts:21-46 | the loop body, with its nested loop over the users, computes Process |
| UserModel.UserCollection.constructor | lib/models/userModel.ts:10-28 | a new account collection is empty and valid |
| RegisterRoute.Register | app/api/auth/register/route.ts:6-47 | 400 exactly when the email already has an account; 500 exactly when it does not and a required field of the new account is empty; neither changes the accounts; 201 appends exactly one account with the given names and email and the hash of the password |
| RegisterRoute.RegisterPreservesInvariant | app/api/auth/register/route.ts:12-31 | registration keeps every account complete and every email unique |
| RegisterRoute.RegisterTwiceRefused | app/api/auth/register/route.ts:12-20 | after an email registers, registering it again gives 400 and adds nothing |
| RegisterRoute.Post | app/api/auth/register/route.ts:6-47 | the handler changes the accounts as Register says, returns its status and keeps the collection valid |
| Decimal.NatToString | lib/helpers/ISO8601ToStringDateUtil.ts:5-9 | the rendering of a number is non-empty decimal digits with no leading zero, one digit exactly below 10 and at most two below 100 |
| Decimal.IntToString | lib/helpers/ISO8601ToStringDateUtil.ts:4 | the rendering of an integer starts with '-' exactly when it is negative |
| Decimal.PadStart2 | lib/helpers/ISO8601ToStringDateUtil.ts:5-6 | padding keeps the text as its suffix, adds only zeros before it, and gives at least two characters |
| Decimal.ValueOfNatToString | lib/helpers/ISO8601ToStringDateUtil.ts:5-9 | reading the rendered digits back gives the number |
| Decimal.TwoDigits | lib/helpers/ISO8601ToStringDateUtil.ts:5-9 | a number below 100, rendered and padded, is exactly two digits that read back as the number |
| DateFormat.DisplayHour | lib/helpers/ISO8601ToStringDateUtil.ts:13-14 | the displayed hour lies in 1..12 and agrees with the hour modulo 12 |
| DateFormat.Meridiem | lib/helpers/ISO8601ToStringDateUtil.ts:11 | the suffix is "PM" exactly when the hour is 12 or later, and "AM" exactly when it is earlier |
| DateFormat.TwelveHourRoundTrip | lib/helpers/ISO8601ToStringDateUtil.ts:11-16 | the displayed hour and the suffix together give back the hour of the day |
| DateFormat.YearRoundTrip | lib/helpers/ISO8601ToStringDateUtil.ts:4 | the unpadded year reads back as the year |
| DateFormat.LayoutRoundTrip | lib/helpers/ISO8601ToStringDateUtil.ts:18 | the template with two-digit fields reads back field by field, is the year plus fifteen characters, and ends in the suffix |
| DateFormat.FormatDate | lib/helpers/ISO8601ToStringDateUtil.ts:4-18 | for any field values, the text starts with the unpadded year and '-', is at least 15 characters longer than the year, and ends in PM exactly for hours of 12 or more (AM otherwise); the full round trip is FormatRoundTrip |
| DateFormat.LayoutEnds | lib/helpers/ISO8601ToStringDateUtil.ts:18 | the template starts with the year and '-' and ends in the suffix whatever the widths of the padded fields |
| DateFormat.FormatRoundTrip | lib/helpers/ISO8601ToStringDateUtil.ts:4-18 | for every date the getters can give, the formatted text reads back to the year, month + 1, day, hour and minutes; the year comes first, unpadded, and the text ends in the hour's suffix |

## Left out

- Scraping (puppeteer) is an input. Its outcome is a `Scrape` for the import and a `Fetch` per product for the rescan.
- Dynamic module loading is reduced to `Scrapers.Resolves`: only `decathlonScrapper` exists and it exports only its named function.
- `parseFloat` and floating-point prices are not modelled. The import's parse is a function parameter and prices are integers.
- PriceDrop.Process: the rescan compares and stores the raw scraped text without the import's cleaning. The model takes the fetched price as an already-normalised integer, so texts that JavaScript would compare as NaN are not represented.
- The database driver, the connection cache and aggregation internals are replaced by sequences in class fields. Documents are in natural order; ids are handed out from a counter.
- ProductRoute.Reconcile: a failing write other than the NaN cast (network, duplicate key) is not modelled as a 500.
- ProductRoute.Reconcile: a session without an email is not modelled; the session email is a non-empty string.
- ProductRoute.Unassociate: the 500 from an ill-formed ObjectId (a cast error) or a failing save is not modelled. Ids are naturals and a missing id is None.
- ProductRoute.List: a database failure (500) is not modelled.
- RegisterRoute.Register: a duplicate-key error from the unique index is not modelled. The lookup before the insert already rules it out in a sequential model.
- RegisterRoute.Register: missing JSON fields are not modelled; every field is a string, and an empty one is rejected by the schema.
- SMTP (nodemailer) is an oracle that accepts or refuses each attempt. The sender address and the transport settings are not modelled.
- The password hash (random salt, pbkdf2) is an uninterpreted function parameter. The model states that the stored password is its output, not that the output differs from the password.
- The clock (`new Date()`, `Date.now`) is an integer parameter.
- `getServerSession` is an optional email parameter.
- Date parsing and local-time getters (`new Date(isoDate)`) are not modelled. The formatter takes year, zero-based month, day, hours and minutes.
- Logging (`console.error`) is reduced to the `Failed` outcome.
- Concurrency between imports and rescans is not modelled; the model is sequential.
- The user interface pages and forms are outside the model.

- The rescan stamps every history entry it appends with one clock value `now`. The code reads `new Date()` afresh for each product (lib/actions/priceDropAction.ts:38), so its entries may carry later times.
- ProductRoute.Unassociate: the splice branch stores the product without the schema check that `save()` performs (app/api/product/route.ts:243). Under the store invariant the spliced product conforms (`DropUserKeepsWellFormed`), so the check cannot fail there.
- RegisterRoute.Register: the hash is unconstrained, so the model's 500 case includes a hash that returns the empty string. The hashing helper (lib/utils/hashPasswordUtil.ts:7) joins salt and digest with "$", so it never does.

Two behaviours of the code worth knowing:

- **Decimal comma:** the cleaning drops a decimal comma, so "1 299,00 DH" becomes "129900" (`DecimalCommaJoinsDigits`).
- **Merge:** when a second user imports a product, the code replaces the price history with one entry at the new price (`Merge`).

## Findings

| source | as written | input that shows it | evidently intended | confidence | as-written member | corrected member |
|---|---|---|---|---|---|---|
| lib/actions/priceDropAction.ts:22 | the rescan takes the `default` export of `<site>Scrapper`, but lib/scrappers/decathlonScrapper.ts:8 only exports the named function `decathlonScrapper`, so calling the scraper throws for every product and the catch swallows it | any stored product from site "decathlon" whose price dropped: no mail is sent and no history entry is added | take the export named `<site>Scrapper`, as the import endpoint does at app/api/product/route.ts:24 | high; not executed | PriceDrop.AsWrittenRescanChangesNothing | PriceDrop.CorrectedRescanRecordsDrop |
