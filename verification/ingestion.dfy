/** Where the scraped default recipe of each unit system is stored: the
    configured path, an underscore, the unit system's name in lower case
    with spaces turned into underscores, and ".csv". Checking for the file,
    scraping and writing it are not modelled. */
module Ingestion {
  import opened Text

  /** `INGESTION_PATH`. */
  const IngestionPath: string := "./scraped_default_ingredients"

  /** `VALID_UNIT_SYSTEMS`: the key a caller passes and the name the
      scraper selects on the page. */
  const ValidUnitSystems: map<string, string> := map["us" := "US Customary", "metric" := "Metric"]

  const Extension: string := ".csv"

  /** A file-name segment: no spaces and no upper-case letters. */
  predicate Normalised(s: string) {
    forall k :: 0 <= k < |s| ==> s[k] != ' ' && !('A' <= s[k] <= 'Z')
  }

  /** `unit_system.lower().replace(" ", "_")`. */
  function UnitSegment(u: string): (s: string)
    ensures |s| == |u| && Normalised(s)
    ensures forall k :: 0 <= k < |u| ==> s[k] == (if u[k] == ' ' then '_' else LowerChar(u[k]))
    ensures Normalised(u) ==> s == u
  {
    ReplaceChar(Lower(u), ' ', '_')
  }

  /** `get_ingestion_path`. */
  function GetIngestionPath(u: string): (p: string)
    ensures |p| == |IngestionPath| + 1 + |u| + |Extension|
    ensures p[..|IngestionPath|] == IngestionPath && p[|IngestionPath|] == '_'
    ensures p[|p| - |Extension|..] == Extension
    ensures Normalised(p[|IngestionPath| + 1..|p| - |Extension|])
  {
    var p := IngestionPath + "_" + UnitSegment(u) + Extension;
    assert p[|IngestionPath| + 1..|p| - |Extension|] == UnitSegment(u);
    p
  }

  /** The segment of a path, read back from between the prefix and the
      extension. */
  function SegmentOf(p: string): string
    requires |p| >= |IngestionPath| + 1 + |Extension|
  {
    p[|IngestionPath| + 1..|p| - |Extension|]
  }

  /** The segment read back from a path is the unit system's segment. */
  lemma SegmentRoundTrip(u: string)
    ensures SegmentOf(GetIngestionPath(u)) == UnitSegment(u)
  {
    var p := IngestionPath + "_" + UnitSegment(u) + Extension;
    assert p[|IngestionPath| + 1..|p| - |Extension|] == UnitSegment(u);
  }

  /** Two unit systems share a file exactly when their segments agree. */
  lemma SamePath(u: string, v: string)
    ensures GetIngestionPath(u) == GetIngestionPath(v) <==> UnitSegment(u) == UnitSegment(v)
  {
    SegmentRoundTrip(u);
    SegmentRoundTrip(v);
  }

  /** Normalising twice is normalising once. */
  lemma SegmentIdempotent(u: string)
    ensures UnitSegment(UnitSegment(u)) == UnitSegment(u)
  {
  }

  /** Passing a name that is already a segment changes nothing: it gets
      the same file as the name it came from. */
  lemma NormalisedPath(u: string)
    ensures GetIngestionPath(UnitSegment(u)) == GetIngestionPath(u)
  {
    SegmentIdempotent(u);
    SamePath(UnitSegment(u), u);
  }

  /** Only spaces and upper-case letters change: a name is its own
      segment exactly when it is already normalised. */
  lemma SegmentFixed(u: string)
    ensures UnitSegment(u) == u <==> Normalised(u)
  {
    if UnitSegment(u) == u {
      forall k | 0 <= k < |u| ensures u[k] != ' ' && !('A' <= u[k] <= 'Z') {
        assert UnitSegment(u)[k] == u[k];
      }
    }
  }

  /** The two configured unit systems and their files, which differ. */
  lemma ConfiguredPaths(us: string, metric: string)
    requires us == ValidUnitSystems["us"] && metric == ValidUnitSystems["metric"]
    ensures GetIngestionPath(us) == "./scraped_default_ingredients_us_customary.csv"
    ensures GetIngestionPath(metric) == "./scraped_default_ingredients_metric.csv"
    ensures GetIngestionPath(us) != GetIngestionPath(metric)
  {
    CustomarySegment(us);
    MetricSegment(metric);
    PathTexts();
  }

  lemma CustomarySegment(u: string)
    requires u == "US Customary"
    ensures UnitSegment(u) == "us_customary"
  {
    SegmentText(u, "us_customary");
  }

  lemma MetricSegment(u: string)
    requires u == "Metric"
    ensures UnitSegment(u) == "metric"
  {
    SegmentText(u, "metric");
  }

  lemma PathTexts()
    ensures IngestionPath + "_" + "us_customary" + Extension == "./scraped_default_ingredients_us_customary.csv"
    ensures IngestionPath + "_" + "metric" + Extension == "./scraped_default_ingredients_metric.csv"
  {
  }

  /** A segment checked character by character. */
  lemma SegmentText(u: string, s: string)
    requires |u| == |s|
    requires forall k :: 0 <= k < |u| ==> s[k] == (if u[k] == ' ' then '_' else LowerChar(u[k]))
    ensures UnitSegment(u) == s
  {
  }
}
