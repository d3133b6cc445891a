/** `repository.ts`: the repository page. It picks its repository out of the
    shared list by id, asks the backend for fresh data on first display,
    relays version choices and sends the user back to the right store. */
module RepositoryPanel {
  import opened Wrappers
  import opened Data
  import opened Patterns
  import opened Markdown
  import opened Strings
  import opened Frontend

  // --- choosing the repository -------------------------------------------

  /** The repositories whose id is the one asked for, in list order. An
      unset id matches none of them. */
  function WithId(repos: seq<Repository>, id: Option<string>): (m: seq<Repository>)
    ensures forall x :: x in m <==> x in repos && Some(x.id) == id
    ensures |m| <= |repos|
  {
    if repos == [] then []
    else (if Some(repos[0].id) == id then [repos[0]] else []) + WithId(repos[1..], id)
  }

  /** `_repositories[0]` of the filtered list, or nothing when it is empty. */
  function FirstWithId(repos: seq<Repository>, id: Option<string>): (r: Option<Repository>)
    ensures r.None? <==> forall x :: x in repos ==> Some(x.id) != id
    ensures r.Some? ==> r.value in repos && Some(r.value.id) == id
  {
    if repos == [] then None
    else if Some(repos[0].id) == id then Some(repos[0])
    else FirstWithId(repos[1..], id)
  }

  /** Position `i` holds the first repository with the id. */
  ghost predicate FirstAt(repos: seq<Repository>, id: Option<string>, i: int)
    requires 0 <= i < |repos|
  {
    Some(repos[i].id) == id && forall j :: 0 <= j < i ==> Some(repos[j].id) != id
  }

  /** Of several repositories with the id, the earliest is selected. */
  lemma {:induction false} FirstWithIdIsFirst(repos: seq<Repository>, id: Option<string>, i: int)
    requires 0 <= i < |repos| && FirstAt(repos, id, i)
    ensures FirstWithId(repos, id) == Some(repos[i])
  {
    if i > 0 {
      assert Some(repos[0].id) != id;
      assert FirstAt(repos[1..], id, i - 1) by {
        forall j | 0 <= j < i - 1 ensures Some(repos[1..][j].id) != id {
          assert repos[1..][j] == repos[j + 1];
        }
      }
      FirstWithIdIsFirst(repos[1..], id, i - 1);
    }
  }

  /** The selected repository is the head of the filtered list. */
  lemma {:induction false} FirstWithIdIsHead(repos: seq<Repository>, id: Option<string>)
    ensures FirstWithId(repos, id) == (if WithId(repos, id) == [] then None else Some(WithId(repos, id)[0]))
  {
    if repos != [] && Some(repos[0].id) != id {
      FirstWithIdIsHead(repos[1..], id);
    }
  }

  // --- what the page shows -------------------------------------------------

  /** The store a repository belongs to: `installed` for an installed one,
      its category otherwise. */
  function BackPanel(r: Repository): string
  {
    if r.installed then "installed" else r.category
  }

  /** The plural used for a category in the translation keys: the two
      daemon stores are `_apps`, every other category takes an `s`. */
  function CategoryLabel(category: string): (plural: string)
    ensures |plural| > |category| && plural[..|category|] == category
    ensures category == "appdaemon" ==> plural == "appdaemon_apps"
    ensures category == "netdaemon" ==> plural == "netdaemon_apps"
    ensures category != "appdaemon" && category != "netdaemon" ==> plural == category + "s"
  {
    if category == "appdaemon" then "appdaemon_apps"
    else if category == "netdaemon" then "netdaemon_apps"
    else category + "s"
  }

  /** The translation key of the back button's label. */
  function BackLabelKey(r: Repository): string
  {
    "common." + (if r.installed then "installed" else CategoryLabel(r.category))
  }

  /** The back button is labelled after the store it leads to: its key is
      `common.` followed by that store's name and at most a plural suffix. */
  lemma BackLabelNamesPanel(r: Repository)
    ensures var key := BackLabelKey(r); var panel := "common." + BackPanel(r);
      |panel| <= |key| && key[..|panel|] == panel
    ensures r.installed ==> BackLabelKey(r) == "common.installed"
    ensures !r.installed && r.category == "appdaemon" ==> BackLabelKey(r) == "common.appdaemon_apps"
    ensures !r.installed && r.category == "netdaemon" ==> BackLabelKey(r) == "common.netdaemon_apps"
    ensures !r.installed && r.category != "appdaemon" && r.category != "netdaemon" ==>
      BackLabelKey(r) == "common." + r.category + "s"
  {
    var name := if r.installed then "installed" else CategoryLabel(r.category);
    var panel := if r.installed then "installed" else r.category;
    assert name[..|panel|] == panel;
    assert ("common." + name)[..|"common." + panel|] == "common." + name[..|panel|];
  }

  /** Going back raises the location change `<panel>`, which the shell
      turns into the path `/<panel>`: an installed repository leads to the
      installed page, any other to the store of its category. */
  lemma {:induction false} BackNavigationRoute(r: Repository)
    requires '/' !in r.category && r.category != "installed" && r.category != "settings"
    requires Free("/" + r.category, "/repository")
    ensures Dispatch("/" + BackPanel(r)) == if r.installed then Installed else Store(Some(r.category))
  {
    if !r.installed {
      var path := "/" + r.category;
      assert path[1..] == r.category;
      assert "/installed"[1..] == "installed" && "/settings"[1..] == "settings";
      TabRoundTrip(r.category);
    }
  }

  /** The version part of the information block. */
  datatype VersionChoice =
    | Plain(version: string)
    | Dropdown(newest: string, entries: seq<string>)

  /** `hacs/integration` and repositories that ask for it do not offer their
      default branch. */
  predicate OffersDefaultBranch(r: Repository)
  {
    r.fullName != "hacs/integration" && !r.hideDefaultBranch
  }

  /** Without releases the available version is shown plainly; otherwise a
      dropdown labelled with the newest release lists the releases, then the
      default branch when it is offered. */
  function Versions(r: Repository): (c: VersionChoice)
    ensures c.Plain? <==> r.releases == []
    ensures c.Plain? ==> c.version == r.availableVersion
    ensures c.Dropdown? ==> c.newest == r.releases[0]
    ensures c.Dropdown? ==> |c.entries| == |r.releases| + (if OffersDefaultBranch(r) then 1 else 0)
    ensures c.Dropdown? ==> forall i :: 0 <= i < |r.releases| ==> c.entries[i] == r.releases[i]
    ensures c.Dropdown? && OffersDefaultBranch(r) ==> c.entries[|r.releases|] == r.defaultBranch
  {
    if |r.releases| == 0 then Plain(r.availableVersion)
    else Dropdown(r.releases[0], r.releases + (if OffersDefaultBranch(r) then [r.defaultBranch] else []))
  }

  /** Every dropdown entry is a release or the offered default branch. */
  lemma DropdownEntries(r: Repository, e: string)
    requires r.releases != []
    ensures e in Versions(r).entries <==> e in r.releases || (OffersDefaultBranch(r) && e == r.defaultBranch)
  {
  }

  /** The additional-information card: present only for up-to-date
      information, rendering `additional_info`, empty when unset, against
      the repository itself. */
  function AdditionalInfo(libs: Libraries, languages: seq<string>, r: Repository): (card: Option<Result<string, RenderError>>)
    ensures card.Some? <==> r.updatedInfo
    ensures card.Some? ==> card.value == Render(libs, languages, r.additionalInfo.GetOr(""), Some(r))
  {
    if r.updatedInfo then Some(Render(libs, languages, r.additionalInfo.GetOr(""), Some(r))) else None
  }

  /** The card's markdown never fails: the repository it needs is there. */
  lemma AdditionalInfoRenders(libs: Libraries, languages: seq<string>, r: Repository)
    requires r.updatedInfo
    ensures AdditionalInfo(libs, languages, r).value.Ok?
  {
  }

  // --- the page's state --------------------------------------------------

  /** The events the page dispatches. */
  datatype PanelEvent =
    | Action(action: RepositoryAction)
    | LocationChange(value: string)

  class Panel {
    /** The id of the repository shown (`this.repository`). */
    var repository: Option<string>
    /** The repository record (`this.repo`). */
    var repo: Option<Repository>
    var panel: string
    /** `this.hacs.repositories`. */
    var hacsRepositories: seq<Repository>
    var events: seq<PanelEvent>

    constructor(repository: Option<string>, hacsRepositories: seq<Repository>)
      ensures this.repository == repository && this.hacsRepositories == hacsRepositories
      ensures repo.None? && panel == "" && events == []
    {
      this.repository := repository;
      this.hacsRepositories := hacsRepositories;
      repo := None;
      panel := "";
      events := [];
    }

    /** `shouldUpdate`: on a `hacs` change the record is replaced by the
        first one with the page's id unless it is equal to the one held; the
        answer is whether `repo` or `lovelaceconfig` is among the changes,
        counting the change the replacement itself records. */
    method ShouldUpdate(changed: set<string>) returns (b: bool)
      modifies this
      ensures "hacs" in changed ==> repo == FirstWithId(hacsRepositories, repository)
      ensures "hacs" !in changed ==> repo == old(repo)
      ensures b <==> "repo" in changed || "lovelaceconfig" in changed || repo != old(repo)
      ensures repository == old(repository) && panel == old(panel)
      ensures hacsRepositories == old(hacsRepositories) && events == old(events)
    {
      var recorded := changed;
      if "hacs" in changed {
        var selected := FirstWithId(hacsRepositories, repository);
        if repo.None? || selected != repo {
          if selected != repo {
            recorded := recorded + {"repo"};
          }
          repo := selected;
        }
      }
      b := "repo" in recorded || "lovelaceconfig" in recorded;
    }

    /** `firstUpdated`: when the information is not up to date the record
        is marked `other` and the backend is asked to set that state and
        then to update. With no record at all the assignment throws before
        anything is sent. */
    method FirstUpdated() returns (thrown: bool)
      modifies this
      ensures thrown <==> old(repo).None?
      ensures !thrown && !old(repo).value.updatedInfo ==>
        repo == Some(old(repo).value.(status := "other")) &&
        events == old(events) + [Action(RepositoryAction(repository, "set_state", Some("other"))),
                                 Action(RepositoryAction(repository, "update", None))]
      ensures thrown || old(repo).value.updatedInfo ==> repo == old(repo) && events == old(events)
      ensures repository == old(repository) && panel == old(panel) && hacsRepositories == old(hacsRepositories)
    {
      if repo.None? {
        return true;
      }
      thrown := false;
      if !repo.value.updatedInfo {
        repo := Some(repo.value.(status := "other"));
        events := events + [Action(RepositoryAction(repository, "set_state", Some("other")))];
        events := events + [Action(RepositoryAction(repository, "update", None))];
      }
    }

    /** `setRepositoryVersion`: a chosen version is relayed as `set_state
        other` followed by `set_version`; an empty choice sends nothing. */
    method SetRepositoryVersion(value: string)
      modifies this
      ensures |value| > 0 ==> events == old(events) + [Action(RepositoryAction(repository, "set_state", Some("other"))),
                                                       Action(RepositoryAction(repository, "set_version", Some(value)))]
      ensures |value| == 0 ==> events == old(events)
      ensures repository == old(repository) && repo == old(repo) && panel == old(panel)
      ensures hacsRepositories == old(hacsRepositories)
    {
      if |value| > 0 {
        events := events + [Action(RepositoryAction(repository, "set_state", Some("other")))];
        events := events + [Action(RepositoryAction(repository, "set_version", Some(value)))];
      }
    }

    /** `GoBackToStore`: the id is cleared, the panel becomes the record's
        store and a location change to it is raised. Without a record the
        id is cleared and the read of `installed` throws. */
    method GoBackToStore() returns (thrown: bool)
      modifies this
      ensures repository.None?
      ensures thrown <==> repo.None?
      ensures !thrown ==> panel == BackPanel(repo.value) && events == old(events) + [LocationChange(panel)]
      ensures thrown ==> panel == old(panel) && events == old(events)
      ensures repo == old(repo) && hacsRepositories == old(hacsRepositories)
    {
      repository := None;
      if repo.None? {
        return true;
      }
      thrown := false;
      if repo.value.installed {
        panel := "installed";
      } else {
        panel := repo.value.category;
      }
      events := events + [LocationChange(panel)];
    }
  }
}
