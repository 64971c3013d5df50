/** The two derivations of teaching fields of the offline extractor
    (scripts/parse-data.mjs). */
module Derivations {
  import opened Text

  const Fallback: string := "Not specified in the JSON."

  /** deriveWhereItRuns: language rules first, then kind, then category;
      otherwise the sentinel. */
  function DeriveWhereItRuns(kind: string, language: string, category: string): string {
    WhereItRunsRule(kind, Lower(language), Lower(category))
  }

  /** The rule chain of deriveWhereItRuns over the lower-cased language and
      category. */
  function WhereItRunsRule(kind: string, lang: string, cat: string): string {
    if lang == "bash" || lang == "shell" then "In a terminal or server shell."
    else if lang == "python" then "On a server or local machine running Python."
    else if lang == "javascript" || lang == "html" || lang == "css" || lang == "html_css" then "In the browser (client-side)."
    else if lang == "typescript" then "In the browser (after compilation) or on the server via Node.js/Deno."
    else if lang == "sql" then "Inside the database engine (PostgreSQL)."
    else if lang == "yaml" then "Read by automation tools like GitHub Actions."
    else if kind == "service" then "In the cloud, accessed over the internet."
    else if kind == "pattern" then "A design approach applied in code architecture."
    else if Contains(cat, "networking") then "Over the network between client and server."
    else if Contains(cat, "linux") || Contains(cat, "server") then "On a Linux server."
    else Fallback
  }

  /** The language names the rules recognise, lower-cased. */
  predicate KnownLanguage(lang: string) {
    lang in {"bash", "shell", "python", "javascript", "html", "css", "html_css", "typescript", "sql", "yaml"}
  }

  /** The derivation ignores the case of language and category. */
  lemma DeriveWhereItRunsIgnoresCase(kind: string, language: string, category: string)
    ensures DeriveWhereItRuns(kind, Lower(language), Lower(category)) == DeriveWhereItRuns(kind, language, category)
  {
    LowerIdempotent(language);
    LowerIdempotent(category);
  }

  /** A recognised language decides alone, whatever the kind and category. */
  lemma KnownLanguageDecides(kind: string, language: string, category: string)
    requires KnownLanguage(Lower(language))
    ensures DeriveWhereItRuns(kind, language, category) == DeriveWhereItRuns("", language, "")
  {
  }

  /** The sentinel comes back exactly when no rule applies. */
  lemma DeriveWhereItRunsFallback(kind: string, language: string, category: string)
    ensures DeriveWhereItRuns(kind, language, category) == Fallback <==>
              !KnownLanguage(Lower(language)) && kind != "service" && kind != "pattern"
              && !Contains(Lower(category), "networking") && !Contains(Lower(category), "linux")
              && !Contains(Lower(category), "server")
  {
  }

  /** The fallback is not content, so a later merge may replace it. */
  lemma FallbackNotContent()
    ensures !HasContent(Fallback)
  {
    assert Fallback[..|NotSpecified|] == NotSpecified;
  }

  /** deriveProjectUsage; the term is not used. An empty `usedFor` stands
      for a missing one. */
  function DeriveProjectUsage(project: string, term: string, usedFor: string): string {
    if usedFor != "" then "In " + project + ": " + usedFor else "Used in the " + project + " project."
  }

  /** The usage text names the project, ends with `usedFor` when one is
      given, and always counts as content. */
  lemma DeriveProjectUsageSpec(project: string, term: string, usedFor: string)
    ensures var r := DeriveProjectUsage(project, term, usedFor);
            && Contains(r, project)
            && (usedFor != "" ==> r == "In " + project + ": " + usedFor && Contains(r, usedFor))
            && HasContent(r)
  {
    var r := DeriveProjectUsage(project, term, usedFor);
    if usedFor != "" {
      assert r[3..][..|project|] == project;
      ContainsSuffix("In " + project + ": ", usedFor);
      assert r[0] == 'I';
    } else {
      assert r[12..][..|project|] == project;
      assert r[0] == 'U';
    }
  }
}
