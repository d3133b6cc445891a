/** `HacsButtonChangelog.ts`: the changelog link of a repository with an
    upgrade pending, and the install action that button class carries. */
module Changelog {
  import opened Wrappers
  import opened Data

  const GithubBase: string := "https://github.com/"

  /** `render`: no link unless an upgrade is pending; the compare view
      between the two commits when the repository follows commits, its
      releases page otherwise. */
  function ChangelogUrl(r: Repository): (url: Option<string>)
    ensures url.None? <==> !r.pendingUpgrade
    ensures url.Some? && r.versionOrCommit != "commit" ==> url.value == GithubBase + r.fullName + "/releases"
    ensures url.Some? && r.versionOrCommit == "commit" ==>
      url.value == GithubBase + r.fullName + "/compare/" + r.installedVersion + "..." + r.availableVersion
  {
    if !r.pendingUpgrade then None
    else
      var url := GithubBase + r.fullName + "/releases";
      if r.versionOrCommit == "commit" then
        Some(GithubBase + r.fullName + "/compare/" + r.installedVersion + "..." + r.availableVersion)
      else Some(url)
  }

  /** Every link points into the repository's own page on GitHub. */
  lemma ChangelogUnderRepository(r: Repository)
    requires r.pendingUpgrade
    ensures var u := ChangelogUrl(r).value; var home := GithubBase + r.fullName + "/";
      |home| < |u| && u[..|home|] == home
  {
    var home := GithubBase + r.fullName + "/";
    var u := ChangelogUrl(r).value;
    var rest := if r.versionOrCommit == "commit" then "compare/" + r.installedVersion + "..." + r.availableVersion else "releases";
    assert u == home + rest;
    assert (home + rest)[..|home|] == home;
  }

  /** The websocket calls the button makes, in order. */
  class ChangelogButton {
    var repository: Repository
    var calls: seq<RepositoryAction>

    constructor(repository: Repository)
      ensures this.repository == repository && calls == []
    {
      this.repository := repository;
      calls := [];
    }

    /** `RepositoryInstall`: `set_state installing`, then `uninstall`, both
        for the button's repository. */
    method RepositoryInstall()
      modifies this
      ensures calls == old(calls) + [RepositoryAction(Some(repository.id), "set_state", Some("installing")),
                                     RepositoryAction(Some(repository.id), "uninstall", None)]
      ensures repository == old(repository)
    {
      calls := calls + [RepositoryAction(Some(repository.id), "set_state", Some("installing"))];
      calls := calls + [RepositoryAction(Some(repository.id), "uninstall", None)];
    }
  }
}
