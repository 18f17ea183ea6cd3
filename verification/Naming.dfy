/** Application names (pkg/controller/naming.go). */
module Naming {
  import opened Text

  const ACE_CHART_NAME := "ace"

  predicate IsACE(name: string, chart: Option<string>) {
    name == ACE_CHART_NAME || chart == Some(ACE_CHART_NAME)
  }

  /** The Application that mirrors a release. The release's namespace plays no part. */
  function ApplicationName(name: string, chart: Option<string>, clusterName: string): string {
    if IsACE(name, chart) || clusterName == "" then name else name + "-" + clusterName
  }

  /** The Application the dependency gate looks for: rebuilt from the dependency's name alone. */
  function DependencyName(name: string, clusterName: string): string {
    ApplicationName(name, None, clusterName)
  }

  /** The dependency's own Application has the name that the gate rebuilds. */
  predicate Agrees(name: string, chart: Option<string>, clusterName: string) {
    clusterName == "" || name == ACE_CHART_NAME || chart != Some(ACE_CHART_NAME)
  }

  /** The gate looks for the dependency's own Application exactly when there is no cluster name,
      or the dependency is named `ace`, or its chart is not `ace`. */
  lemma NamingAgreement(name: string, chart: Option<string>, clusterName: string)
    ensures DependencyName(name, clusterName) == ApplicationName(name, chart, clusterName) <==>
            Agrees(name, chart, clusterName)
  {
    assert |name + "-" + clusterName| > |name|;
  }

  /** With a cluster name every release but ACE's gets it as a suffix, so that releases of one name in
      two clusters have Applications of two names; ACE's, told by its own name or its chart's, and all
      releases without a cluster name, keep their names. */
  lemma NamesTold(name: string, chart: Option<string>, clusterName: string, other: string)
    ensures name == "ace" || chart == Some("ace") || clusterName == "" ==>
              ApplicationName(name, chart, clusterName) == name
    ensures name != "ace" && chart != Some("ace") && clusterName != "" ==>
              ApplicationName(name, chart, clusterName) == name + "-" + clusterName &&
              ApplicationName(name, chart, clusterName) != name &&
              (ApplicationName(name, chart, other) == ApplicationName(name, chart, clusterName) ==>
                other == clusterName)
  {
    var a, b := name + "-" + clusterName, name + "-" + other;
    assert |a| > |name|;
    assert a[|name| + 1..] == clusterName && b[|name| + 1..] == other;
  }
}
