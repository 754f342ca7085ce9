/** Adapter selection by file name: `ConfigManager(string)` lower-cases the
    path and tests, in this order, whether it ends with "xml", "ini" or
    "json"; any other ending is handed to type inference. The test is a plain
    suffix test, not an extension test, so "a.myxml" counts as XML. */
module Dispatch {
  import opened Text

  /** Which branch of the constructor a path takes. */
  datatype Route = XmlRoute | IniRoute | JsonRoute | InferRoute

  /** No string ends with two of "xml", "ini" and "json": their last
      characters differ. Hence the order in which the constructor tests the
      suffixes can never change which branch is taken. */
  lemma SuffixesDisjoint(lowered: string)
    ensures !(EndsWith(lowered, "xml") && EndsWith(lowered, "ini"))
    ensures !(EndsWith(lowered, "xml") && EndsWith(lowered, "json"))
    ensures !(EndsWith(lowered, "ini") && EndsWith(lowered, "json"))
  {
  }

  /** The branch `ConfigManager(filePath)` takes. Each recognised suffix of
      the lower-cased path selects its own adapter whatever else the path
      holds, and inference is reached exactly when none matches. */
  function SelectRoute(filePath: string): (r: Route)
    ensures r == XmlRoute <==> EndsWith(Lower(filePath), "xml")
    ensures r == IniRoute <==> EndsWith(Lower(filePath), "ini")
    ensures r == JsonRoute <==> EndsWith(Lower(filePath), "json")
    ensures r == InferRoute <==>
              !EndsWith(Lower(filePath), "xml") && !EndsWith(Lower(filePath), "ini")
              && !EndsWith(Lower(filePath), "json")
  {
    var lowered := Lower(filePath);
    SuffixesDisjoint(lowered);
    if EndsWith(lowered, "xml") then XmlRoute
    else if EndsWith(lowered, "ini") then IniRoute
    else if EndsWith(lowered, "json") then JsonRoute
    else InferRoute
  }

  /** Dispatch is case-insensitive: paths that agree up to letter case take
      the same branch, and so do a path and its upper-case spelling. */
  lemma RouteIgnoresCase(p: string, q: string)
    requires SameIgnoringCase(p, q)
    ensures SelectRoute(p) == SelectRoute(q)
    ensures SelectRoute(Upper(p)) == SelectRoute(p)
  {
    LowerIdentifiesCase(p, q);
    LowerAfterUpper(p);
  }

  /** The branch is decided by the path's ending alone: putting anything in
      front of a path does not change which adapter it selects. */
  lemma RouteDependsOnlyOnEnding(prefix: string, p: string)
    requires |p| >= 4
    ensures SelectRoute(prefix + p) == SelectRoute(p)
  {
  }

  /** The test is on the ending, not on a dot-separated extension. */
  lemma SuffixNotExtension()
    ensures SelectRoute("a.myxml") == XmlRoute
    ensures SelectRoute("settingsjson") == JsonRoute
  {
    assert Lower("a.myxml") == "a.myxml";
    assert Lower("settingsjson") == "settingsjson";
  }

  /** An upper-case extension is recognised. */
  lemma UpperCaseExtension()
    ensures SelectRoute("app.INI") == IniRoute
  {
    assert Lower("app.INI") == "app.ini";
  }

  /** An ending that names no format goes to type inference. */
  lemma UnknownExtension()
    ensures SelectRoute("app.cfg") == InferRoute
  {
    assert Lower("app.cfg") == "app.cfg";
  }
}
