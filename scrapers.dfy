/** The scraper modules under lib/scrappers/ and how a dynamic import resolves one of them. Each
    module `<site>Scrapper` exports a single named function `<site>Scrapper`; the only site with a
    module is "decathlon" (lib/scrappers/decathlonScrapper.ts). The scraping itself is not part of
    this model: its outcome is an input wherever a scraper is called. */
module Scrapers {

  /** The sites that have a scraper module. */
  const Sites: set<string> := {"decathlon"}

  /** The name of the one export of `<site>Scrapper`. */
  function ExportOf(website: string): string {
    website + "Scrapper"
  }

  /** Loading `<website>Scrapper` and taking export `exportName` yields a callable scraper: the
      module exists and exports that name. Anything else makes the call throw. */
  predicate Resolves(website: string, exportName: string) {
    website in Sites && exportName == ExportOf(website)
  }

  /** A site whose scraper resolves has a non-empty name. */
  lemma ResolvedSiteIsNamed(website: string, exportName: string)
    requires Resolves(website, exportName)
    ensures website != "" && exportName != "default"
  {
    assert website == "decathlon";
    assert |exportName| == |website| + 8;
  }
}
