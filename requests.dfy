/** The checks the page makes before it sends a request: the Azure
    DevOps URL test and PAT attachment of the analysis form
    (frontend/js/script.js lines 176-183) and the input check of the
    "Fetch Repos" button (lines 20-28). The requests themselves are not
    part of this model. */
module Requests {
  import opened Wrappers
  import opened Strings

  const AzureHost: string := "dev.azure.com"
  const LegacyAzureHost: string := "visualstudio.com"

  /** `/dev\.azure\.com|visualstudio\.com/i.test(url)`: either host name
      occurs somewhere in the URL, ignoring ASCII case. */
  function IsAzureUrl(url: string): (b: bool)
    ensures b <==> (exists i :: OccursAt(Lower(url), AzureHost, i)) ||
                   (exists i :: OccursAt(Lower(url), LegacyAzureHost, i))
  {
    IndexOf(Lower(url), AzureHost).Some? || IndexOf(Lower(url), LegacyAzureHost).Some?
  }

  /** Case does not matter to the test. */
  lemma AzureUrlIgnoresCase(url: string)
    ensures IsAzureUrl(Lower(url)) == IsAzureUrl(url)
  {
    LowerIdempotent(url);
  }

  /** A URL with an Azure host name in it, in any ASCII case and anywhere,
      is an Azure URL. */
  lemma AzureHostAnywhere(before: string, host: string, after: string)
    requires Lower(host) == AzureHost || Lower(host) == LegacyAzureHost
    ensures IsAzureUrl(before + host + after)
  {
    var url := before + host + after;
    var i := |before|;
    assert Lower(url)[i..i + |host|] == Lower(host);
    assert OccursAt(Lower(url), Lower(host), i);
  }

  /** The JSON body of `POST /analyze`. */
  datatype AnalysisRequest = AnalysisRequest(githubUrl: string, azurePat: Option<string>)

  /** The analysis form's body: the URL as typed, and the PAT field's value
      only for an Azure URL and a non-empty PAT. */
  function AnalysisBody(githubUrl: string, patValue: string): (r: AnalysisRequest)
    ensures r.githubUrl == githubUrl
    ensures r.azurePat.Some? <==> IsAzureUrl(githubUrl) && patValue != ""
    ensures r.azurePat.Some? ==> r.azurePat.value == patValue
  {
    var isAzure := IsAzureUrl(githubUrl);
    if isAzure && patValue != "" then AnalysisRequest(githubUrl, Some(patValue))
    else AnalysisRequest(githubUrl, None)
  }

  /** A PAT never leaves the page with a URL that does not name an Azure
      host. */
  lemma PatOnlyForAzure(githubUrl: string, patValue: string)
    requires forall i :: !OccursAt(Lower(githubUrl), AzureHost, i) && !OccursAt(Lower(githubUrl), LegacyAzureHost, i)
    ensures AnalysisBody(githubUrl, patValue).azurePat == None
  {
  }

  /** The JSON body of `POST /azure/repos`. */
  datatype FetchReposRequest = FetchReposRequest(org: string, project: string, pat: string)

  const MissingAzureFields: string := "Please enter Azure org, project, and PAT"

  /** The "Fetch Repos" input check: organisation and project are trimmed,
      the PAT is taken as typed, and an empty one of the three stops the
      request with a warning. */
  function FetchReposInput(org: string, project: string, pat: string): (r: Result<FetchReposRequest, string>)
  {
    var o := Trim(org);
    var p := Trim(project);
    if o == "" || p == "" || pat == "" then Err(MissingAzureFields)
    else Ok(FetchReposRequest(o, p, pat))
  }

  /** The request is refused exactly when the organisation or the project
      is all whitespace or the PAT is empty; a refusal carries the warning. */
  lemma FetchReposRefusal(org: string, project: string, pat: string)
    ensures FetchReposInput(org, project, pat).Err? <==>
              (forall i :: 0 <= i < |org| ==> IsWhitespace(org[i])) ||
              (forall i :: 0 <= i < |project| ==> IsWhitespace(project[i])) ||
              pat == ""
    ensures FetchReposInput(org, project, pat).Err? ==>
              FetchReposInput(org, project, pat).error == MissingAzureFields
  {
    TrimEmptyIffBlank(org);
    TrimEmptyIffBlank(project);
  }

  /** An accepted request carries non-empty, trimmed names and the PAT
      exactly as typed. */
  lemma FetchReposAccepted(org: string, project: string, pat: string)
    requires FetchReposInput(org, project, pat).Ok?
    ensures var q := FetchReposInput(org, project, pat).value;
            q.org == Trim(org) && q.org != "" && Trimmed(q.org) &&
            q.project == Trim(project) && q.project != "" && Trimmed(q.project) &&
            q.pat == pat
  {
    TrimIdempotent(org);
    TrimIdempotent(project);
    TrimFixedPoints(Trim(org));
    TrimFixedPoints(Trim(project));
  }

  /** Checking an accepted request's own fields again accepts the same
      request. */
  lemma FetchReposStable(org: string, project: string, pat: string)
    requires FetchReposInput(org, project, pat).Ok?
    ensures var q := FetchReposInput(org, project, pat).value;
            FetchReposInput(q.org, q.project, q.pat) == FetchReposInput(org, project, pat)
  {
    TrimIdempotent(org);
    TrimIdempotent(project);
  }

  /** The PAT is not trimmed: a PAT of one space passes the check. */
  lemma BlankPatAccepted(org: string, project: string)
    requires Trim(org) != "" && Trim(project) != ""
    ensures FetchReposInput(org, project, " ").Ok?
  {
  }
}
