/** `HacsFrontend.ts`: the shell that owns the route, picks the page to show
    and rebuilds the shared `Hacs` object. The route is two fields, the
    prefix under which the panel is mounted and the path inside it. */
module Frontend {
  import opened Wrappers
  import opened Strings
  import opened StringLemmas
  import opened Data

  /** What the shell asks of the browser and of lit, in order. */
  datatype ShellEffect = Navigate(url: string) | Reload | RequestUpdate | ScrollToTop

  /** The shared object handed to every page. */
  datatype Hacs = Hacs(
    configuration: Option<Configuration>,
    repositories: Option<seq<Repository>>,
    status: Option<Status>)

  /** The page the shell renders. */
  datatype View =
    | Loader
    | Onboarding
    | Installed
    | Settings
    | RepositoryPage(repository: Option<string>)
    | Store(store: Option<string>)

  predicate StartsWithSlash(s: string)
  {
    |s| > 0 && s[0] == '/'
  }

  /** `_get_store`: the second `/`-segment of the path. */
  function GetStore(path: string): Option<string>
  {
    Segment(path, '/', 1)
  }

  /** `_get_repository`: the third `/`-segment of the path. */
  function GetRepository(path: string): Option<string>
  {
    Segment(path, '/', 2)
  }

  /** `_activeTab`: the second segment of the path, `installed` without one. */
  function ActiveTab(path: string): string
  {
    Segment(path, '/', 1).GetOr("installed")
  }

  /** `_rootPath`: the second segment of the prefix, `hacs` without one. */
  function RootPath(prefix: string): string
  {
    Segment(prefix, '/', 1).GetOr("hacs")
  }

  /** The title carries `(DEVELOPMENT)` under the `hacs_dev` root. */
  predicate IsDevelopment(prefix: string)
  {
    RootPath(prefix) == "hacs_dev"
  }

  /** The page for a path once everything is loaded: the first of exact
      `/installed`, exact `/settings`, any path holding `/repository`, and
      the store. */
  function Dispatch(path: string): (v: View)
    ensures v == Installed <==> path == "/installed"
    ensures v == Settings <==> path == "/settings"
    ensures v.RepositoryPage? <==> !Free(path, "/repository")
    ensures v.RepositoryPage? ==> v.repository == GetRepository(path)
    ensures v.Store? ==> v.store == GetStore(path)
    ensures path != "/installed" && path != "/settings" && Free(path, "/repository") ==> v == Store(GetStore(path))
  {
    FreeByMissingChar("/installed", "/repository", 'p');
    FreeByMissingChar("/settings", "/repository", 'p');
    if path == "/installed" then Installed
    else if path == "/settings" then Settings
    else if Contains(path, "/repository") then RepositoryPage(GetRepository(path))
    else Store(GetStore(path))
  }

  /** The page for the loaded data and a path: the loader while anything is
      missing, onboarding until it is done (unless HACS is disabled), the
      dispatched page otherwise. */
  function ViewFor(repositories: Option<seq<Repository>>, configuration: Option<Configuration>,
                   status: Option<Status>, path: string): (v: View)
    ensures v == Loader <==> repositories.None? || configuration.None? || status.None?
    ensures v == Onboarding <==> v != Loader && !configuration.value.onboardingDone && !status.value.disabled
    ensures v != Loader && v != Onboarding ==> v == Dispatch(path)
  {
    if repositories.None? || configuration.None? || status.None? then Loader
    else if !configuration.value.onboardingDone && !status.value.disabled then Onboarding
    else Dispatch(path)
  }

  /** `isnullorempty` on the shell's lists: absent, or present and empty. */
  predicate NoRepositories(r: Option<seq<Repository>>)
  {
    r.None? || r.value == []
  }

  class Shell {
    var prefix: string
    var path: Option<string>
    var configuration: Option<Configuration>
    var repositories: Option<seq<Repository>>
    var status: Option<Status>
    var hacs: Hacs
    var effects: seq<ShellEffect>
    var messages: seq<Message>

    /** `connectedCallback`: the shared object is built from the fields,
        none of which is loaded yet. */
    constructor(prefix: string, path: Option<string>)
      ensures this.prefix == prefix && this.path == path
      ensures configuration.None? && repositories.None? && status.None?
      ensures hacs == Hacs(None, None, None)
      ensures effects == [] && messages == []
    {
      this.prefix := prefix;
      this.path := path;
      configuration := None;
      repositories := None;
      status := None;
      hacs := Hacs(None, None, None);
      effects := [];
      messages := [];
    }

    /** `locationChanged`: a value starting with `/` becomes the prefix and
        empties the path; any other value becomes the path under the
        current prefix. Then the browser goes there and the page is
        reloaded when forced, redrawn otherwise. */
    method LocationChanged(value: string, force: bool)
      requires configuration.Some?
      modifies this
      ensures StartsWithSlash(value) ==> prefix == value && path == Some("")
      ensures !StartsWithSlash(value) ==> prefix == old(prefix) && path == Some("/" + value)
      ensures effects == old(effects) + [Navigate(prefix + path.value), if force then Reload else RequestUpdate, ScrollToTop]
      ensures configuration == old(configuration) && repositories == old(repositories) && status == old(status)
      ensures hacs == old(hacs) && messages == old(messages)
    {
      if StartsWithSlash(value) {
        prefix := value;
        path := Some("");
      } else {
        path := Some("/" + value);
      }
      effects := effects + [Navigate(prefix + path.value)];
      if force {
        effects := effects + [Reload];
      } else {
        effects := effects + [RequestUpdate];
      }
      effects := effects + [ScrollToTop];
    }

    /** `render`: an empty or missing path is first sent to `/installed`,
        then the page is chosen. */
    method Render() returns (v: View)
      modifies this
      ensures old(path) == Some("") || old(path).None? ==>
        path == Some("/installed") && effects == old(effects) + [Navigate(prefix + "/installed")]
      ensures !(old(path) == Some("") || old(path).None?) ==>
        path == old(path) && effects == old(effects)
      ensures v == ViewFor(repositories, configuration, status, path.value)
      ensures prefix == old(prefix) && configuration == old(configuration)
      ensures repositories == old(repositories) && status == old(status)
      ensures hacs == old(hacs) && messages == old(messages)
    {
      if path == Some("") || path.None? {
        effects := effects + [Navigate(prefix + "/installed")];
        path := Some("/installed");
      }
      v := ViewFor(repositories, configuration, status, path.value);
    }

    /** `_recreatehacs`: the shared object is rebuilt from the shell's
        fields, keeping the old object's value for each one that is null
        or empty. */
    method RecreateHacs()
      modifies this
      ensures configuration.Some? ==> hacs.configuration == configuration
      ensures configuration.None? ==> hacs.configuration == old(hacs.configuration)
      ensures !NoRepositories(repositories) ==> hacs.repositories == repositories
      ensures NoRepositories(repositories) ==> hacs.repositories == old(hacs.repositories)
      ensures status.Some? ==> hacs.status == status
      ensures status.None? ==> hacs.status == old(hacs.status)
      ensures effects == old(effects) + [RequestUpdate]
      ensures prefix == old(prefix) && path == old(path) && messages == old(messages)
      ensures configuration == old(configuration) && repositories == old(repositories) && status == old(status)
    {
      var c := configuration;
      var r := repositories;
      var s := status;
      if c.None? {
        c := hacs.configuration;
      }
      if NoRepositories(r) {
        r := hacs.repositories;
      }
      if s.None? {
        s := hacs.status;
      }
      hacs := Hacs(c, r, s);
      effects := effects + [RequestUpdate];
    }

    /** `handlePageSelected`: choosing a tab raises a location change that
        the shell itself handles, without forcing a reload. */
    method HandlePageSelected(selected: string)
      requires configuration.Some?
      modifies this
      ensures !StartsWithSlash(selected) ==> prefix == old(prefix) && path == Some("/" + selected)
      ensures StartsWithSlash(selected) ==> prefix == selected && path == Some("")
      ensures effects == old(effects) + [Navigate(prefix + path.value), RequestUpdate, ScrollToTop]
      ensures configuration == old(configuration) && repositories == old(repositories) && status == old(status)
      ensures hacs == old(hacs) && messages == old(messages)
    {
      LocationChanged(selected, false);
    }

    /** `onboardingDone`: the flag is set locally, the backend is told, and
        the page is redrawn. */
    method OnboardingDone()
      requires configuration.Some?
      modifies this
      ensures configuration == Some(old(configuration).value.(onboardingDone := true))
      ensures messages == old(messages) + [Message("hacs/settings", "onboarding_done")]
      ensures effects == old(effects) + [RequestUpdate]
      ensures prefix == old(prefix) && path == old(path) && hacs == old(hacs)
      ensures repositories == old(repositories) && status == old(status)
    {
      configuration := Some(configuration.value.(onboardingDone := true));
      messages := messages + [Message("hacs/settings", "onboarding_done")];
      effects := effects + [RequestUpdate];
    }
  }

  // --- what the route functions give --------------------------------------

  /** A tab name without `/` that is chosen becomes the active tab and the
      store shown. */
  lemma {:induction false} TabRoundTrip(tab: string)
    requires '/' !in tab
    ensures ActiveTab("/" + tab) == tab && GetStore("/" + tab) == Some(tab)
    ensures GetRepository("/" + tab).None?
  {
    SplitAtFirst([], tab, '/');
    SplitWhole(tab, '/');
    assert [] + ['/'] + tab == "/" + tab;
  }

  /** A prefix `/<root>` names its root; the `hacs_dev` root marks a
      development build. */
  lemma {:induction false} RootOfPrefix(root: string)
    requires '/' !in root
    ensures RootPath("/" + root) == root
    ensures IsDevelopment("/" + root) <==> root == "hacs_dev"
  {
    SplitAtFirst([], root, '/');
    SplitWhole(root, '/');
    assert [] + ['/'] + root == "/" + root;
  }

  /** A path with no `/`, the empty path among them, has the `installed`
      tab active, and a prefix without `/` the `hacs` root. */
  lemma {:induction false} DefaultSegments(s: string)
    requires '/' !in s
    ensures ActiveTab(s) == "installed" && RootPath(s) == "hacs"
  {
    SplitWhole(s, '/');
  }

  /** The root redirect lands on the installed page with the installed tab
      active. */
  lemma {:induction false} RootRedirectShowsInstalled()
    ensures Dispatch("/installed") == Installed && ActiveTab("/installed") == "installed"
  {
    TabRoundTrip("installed");
  }

  /** `/repository/<id>` shows the repository page for `<id>`. */
  lemma {:induction false} RepositoryRoute(id: string)
    requires '/' !in id
    ensures Dispatch("/repository/" + id) == RepositoryPage(Some(id))
  {
    var path := "/repository/" + id;
    assert path[..|"/repository"|] == "/repository";
    assert OccursAt(path, "/repository", 0);
    assert path == [] + ['/'] + ("repository" + ['/'] + id);
    SplitAtFirst([], "repository" + ['/'] + id, '/');
    SplitAtFirst("repository", id, '/');
    SplitWhole(id, '/');
  }
}
