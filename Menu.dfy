/** `HacsMenu.ts`: the overflow menu. It picks the documentation page for the
    current location, sends the display settings, and guards the
    reload-data and upgrade-all actions behind the background task and a
    confirmation. */
module Menu {
  import opened Wrappers
  import opened Strings
  import opened StringLemmas
  import opened Data

  // --- the documentation link ----------------------------------------------

  const HelpBase: string := "https://hacs.xyz/docs/navigation/"
  const HelpFallback: string := "https://hacs.xyz/docs/basic/getting_started/"
  const StoreCategories: seq<string> := ["integration", "plugin", "appdaemon", "python_script", "theme"]

  /** `openHelp`: the third `/`-segment of the pathname names the page; a
      missing or empty one opens the getting-started page and a store
      category opens the page on stores. */
  function HelpUrl(pathname: string): (url: string)
    ensures Segment(pathname, '/', 2).GetOr("") == "" ==> url == HelpFallback
    ensures Segment(pathname, '/', 2).GetOr("") in StoreCategories ==> url == HelpBase + "stores"
    ensures var loc := Segment(pathname, '/', 2).GetOr("");
      loc != "" && loc !in StoreCategories ==> url == HelpBase + loc
  {
    var location := Segment(pathname, '/', 2);
    if location.None? || location.value == "" then HelpFallback
    else if location.value in StoreCategories then HelpBase + "stores"
    else HelpBase + location.value
  }

  /** Under `/<root>/<page>` the link is chosen by `<page>` alone. */
  lemma {:induction false} HelpForPage(root: string, page: string)
    requires '/' !in root && '/' !in page
    ensures HelpUrl("/" + root + "/" + page) ==
      if page == "" then HelpFallback
      else if page in StoreCategories then HelpBase + "stores"
      else HelpBase + page
  {
    var pathname := "/" + root + "/" + page;
    assert pathname == [] + ['/'] + (root + ['/'] + page);
    SplitAtFirst([], root + ['/'] + page, '/');
    SplitAtFirst(root, page, '/');
    SplitWhole(page, '/');
  }

  /** At the panel's root, with no page segment, the link is the
      getting-started page. */
  lemma {:induction false} HelpAtRoot(root: string)
    requires '/' !in root
    ensures HelpUrl("/" + root) == HelpFallback
  {
    assert "/" + root == [] + ['/'] + root;
    SplitAtFirst([], root, '/');
    SplitWhole(root, '/');
  }

  // --- the display settings ------------------------------------------------

  /** `SetFeStyle`: asks for the table view unless it is the one shown. */
  function FeStyleAction(frontendMode: string): string
  {
    "set_fe_" + (if frontendMode != "Table" then "table" else "grid")
  }

  /** `SetFeCompact`: names the current compact flag, lower-cased. */
  function FeCompactAction(frontendCompact: bool): string
  {
    "set_fe_compact_" + (if frontendCompact then "true" else "false")
  }

  /** The view a style action asks for. */
  function RequestedMode(action: string): Option<string>
  {
    if action == "set_fe_table" then Some("Table")
    else if action == "set_fe_grid" then Some("Grid")
    else None
  }

  /** The flag a compact action names. */
  function NamedCompact(action: string): Option<bool>
  {
    if action == "set_fe_compact_true" then Some(true)
    else if action == "set_fe_compact_false" then Some(false)
    else None
  }

  /** The style switch always asks for the view other than the one it shows
      as checked: the table when it is off, the grid when it is on. */
  lemma StyleToggles(frontendMode: string)
    ensures RequestedMode(FeStyleAction(frontendMode)).Some?
    ensures RequestedMode(FeStyleAction(frontendMode)) == Some("Table") <==> frontendMode != "Table"
    ensures FeStyleAction(frontendMode) == (if frontendMode != "Table" then "set_fe_table" else "set_fe_grid")
  {
  }

  /** The compact action carries exactly the current flag. */
  lemma CompactNamesFlag(frontendCompact: bool)
    ensures NamedCompact(FeCompactAction(frontendCompact)) == Some(frontendCompact)
    ensures FeCompactAction(frontendCompact)
      == (if frontendCompact then "set_fe_compact_true" else "set_fe_compact_false")
  {
  }

  // --- which items show ------------------------------------------------------

  /** The upgrade-all item appears where the location mentions `installed`. */
  predicate ShowsUpgradeAll(location: string)
  {
    Contains(location, "installed")
  }

  /** The table and compact switches are hidden on settings and repository
      locations. */
  predicate ShowsSwitches(location: string)
  {
    !Contains(location, "settings") && !Contains(location, "repository")
  }

  /** On the installed tab the upgrade-all item and the switches show. The
      root is one path segment without `g` or `p`, so it cannot hold
      `settings` or `repository`; both roots the panel is served under,
      `hacs` and `hacs_dev`, are such segments. */
  lemma {:induction false} InstalledTabItems(root: string)
    requires '/' !in root && 'g' !in root && 'p' !in root
    ensures ShowsUpgradeAll("/" + root + "/installed")
    ensures ShowsSwitches("/" + root + "/installed")
  {
    var loc := "/" + root + "/installed";
    assert loc[|root| + 2..|root| + 11] == "installed";
    assert OccursAt(loc, "installed", |root| + 2);
    assert 'g' !in loc && 'p' !in loc;
    FreeByMissingChar(loc, "settings", 'g');
    FreeByMissingChar(loc, "repository", 'p');
  }

  /** On the settings tab and on any repository page the switches hide. */
  lemma {:induction false} SwitchesHidden(location: string, at: nat)
    requires OccursAt(location, "settings", at) || OccursAt(location, "repository", at)
    ensures !ShowsSwitches(location)
  {
  }

  // --- the pending upgrades --------------------------------------------------

  /** The repositories with an upgrade pending, in list order. */
  function PendingUpgrades(repos: seq<Repository>): (p: seq<Repository>)
    ensures |p| <= |repos|
  {
    if repos == [] then []
    else (if repos[0].pendingUpgrade then [repos[0]] else []) + PendingUpgrades(repos[1..])
  }

  /** A repository is listed exactly when it is in the list with an upgrade
      pending. */
  lemma {:induction false} PendingUpgradesMembers(repos: seq<Repository>, r: Repository)
    ensures r in PendingUpgrades(repos) <==> r in repos && r.pendingUpgrade
  {
    if repos != [] {
      PendingUpgradesMembers(repos[1..], r);
      assert r in repos <==> r == repos[0] || r in repos[1..];
    }
  }

  /** Filtering a list piece by piece gives the filtered list. */
  lemma {:induction false} PendingUpgradesConcat(a: seq<Repository>, b: seq<Repository>)
    ensures PendingUpgrades(a + b) == PendingUpgrades(a) + PendingUpgrades(b)
  {
    if a == [] {
      assert a + b == b;
    } else {
      var head := if a[0].pendingUpgrade then [a[0]] else [];
      assert (a + b)[0] == a[0];
      assert (a + b)[1..] == a[1..] + b;
      assert PendingUpgrades(a + b) == head + PendingUpgrades(a[1..] + b);
      PendingUpgradesConcat(a[1..], b);
      assert PendingUpgrades(a) == head + PendingUpgrades(a[1..]);
    }
  }

  /** Filtering twice is filtering once. */
  lemma {:induction false} PendingUpgradesIdempotent(repos: seq<Repository>)
    ensures PendingUpgrades(PendingUpgrades(repos)) == PendingUpgrades(repos)
  {
    if repos != [] {
      var rest := PendingUpgrades(repos[1..]);
      PendingUpgradesIdempotent(repos[1..]);
      if repos[0].pendingUpgrade {
        var p := [repos[0]] + rest;
        assert PendingUpgrades(repos) == p;
        assert p[0] == repos[0] && p[1..] == rest;
        assert PendingUpgrades(p) == [repos[0]] + PendingUpgrades(rest);
      } else {
        assert PendingUpgrades(repos) == rest;
      }
    }
  }

  /** One line of the confirmation: `name: installed -> available`. */
  function UpgradeLine(r: Repository): string
  {
    r.name + ": " + r.installedVersion + " -> " + r.availableVersion + "\n"
  }

  /** The lines for a list of repositories, in order. */
  function UpgradeLines(repos: seq<Repository>): string
  {
    if repos == [] then "" else UpgradeLine(repos[0]) + UpgradeLines(repos[1..])
  }

  lemma {:induction false} UpgradeLinesConcat(a: seq<Repository>, b: seq<Repository>)
    ensures UpgradeLines(a + b) == UpgradeLines(a) + UpgradeLines(b)
  {
    if a == [] {
      assert a + b == b;
    } else {
      assert (a + b)[1..] == a[1..] + b;
      UpgradeLinesConcat(a[1..], b);
    }
  }

  /** No field that goes into a line breaks it. */
  predicate OneLine(r: Repository)
  {
    '\n' !in r.name && '\n' !in r.installedVersion && '\n' !in r.availableVersion
  }

  /** The confirmation has one line per pending repository. */
  lemma {:induction false} UpgradeLinesCount(repos: seq<Repository>)
    requires forall r :: r in repos ==> OneLine(r)
    ensures multiset(UpgradeLines(repos))['\n'] == |repos|
  {
    if repos != [] {
      var r := repos[0];
      assert OneLine(r);
      var line := UpgradeLine(r);
      assert multiset(line)['\n'] == 1 by {
        assert line == r.name + ": " + r.installedVersion + " -> " + r.availableVersion + "\n";
        assert multiset(r.name)['\n'] == 0 && multiset(r.installedVersion)['\n'] == 0;
        assert multiset(r.availableVersion)['\n'] == 0;
        assert multiset(": ")['\n'] == 0 && multiset(" -> ")['\n'] == 0 && multiset("\n")['\n'] == 1;
      }
      UpgradeLinesCount(repos[1..]);
      assert multiset(UpgradeLines(repos)) == multiset(line) + multiset(UpgradeLines(repos[1..]));
    }
  }

  /** The confirmation text for the pending list. */
  function UpgradeMessage(localize: string -> string, pending: seq<Repository>): string
  {
    localize("confirm.upgrade_all") + "\n\n" + UpgradeLines(pending) + "\n" + localize("confirm.continue")
  }

  /** The `forEach` that pushes each repository with an upgrade pending. */
  method CollectPending(repos: seq<Repository>) returns (elements: seq<Repository>)
    ensures elements == PendingUpgrades(repos)
  {
    elements := [];
    var i := 0;
    while i < |repos|
      invariant 0 <= i <= |repos|
      invariant elements == PendingUpgrades(repos[..i])
    {
      PendingUpgradesConcat(repos[..i], [repos[i]]);
      assert repos[..i + 1] == repos[..i] + [repos[i]];
      if repos[i].pendingUpgrade {
        elements := elements + [repos[i]];
      }
      i := i + 1;
    }
    assert repos[..i] == repos;
  }

  /** The confirmation text, one line appended per repository. */
  method UpgradeText(localize: string -> string, elements: seq<Repository>) returns (msg: string)
    ensures msg == UpgradeMessage(localize, elements)
  {
    var head := localize("confirm.upgrade_all") + "\n\n";
    msg := head;
    var j := 0;
    while j < |elements|
      invariant 0 <= j <= |elements|
      invariant msg == head + UpgradeLines(elements[..j])
    {
      UpgradeLinesConcat(elements[..j], [elements[j]]);
      assert elements[..j + 1] == elements[..j] + [elements[j]];
      ConcatAssoc(head, UpgradeLines(elements[..j]), UpgradeLine(elements[j]));
      msg := msg + UpgradeLine(elements[j]);
      j := j + 1;
    }
    assert elements[..j] == elements;
    msg := msg + "\n" + localize("confirm.continue");
  }

  // --- the menu's state ----------------------------------------------------

  /** A `swal` dialog: its text and its buttons (none for the default). */
  datatype Dialog = Dialog(text: string, buttons: seq<string>)

  const SettingsType: string := "hacs/settings"

  class HacsMenu {
    var configuration: Configuration
    var status: Status
    var repositories: seq<Repository>
    var dialogs: seq<Dialog>
    var sent: seq<Message>

    constructor(configuration: Configuration, status: Status, repositories: seq<Repository>)
      ensures this.configuration == configuration && this.status == status
      ensures this.repositories == repositories && dialogs == [] && sent == []
    {
      this.configuration := configuration;
      this.status := status;
      this.repositories := repositories;
      dialogs := [];
      sent := [];
    }

    method SetFeStyle()
      modifies this
      ensures sent == old(sent) + [Message(SettingsType, FeStyleAction(configuration.frontendMode))]
      ensures configuration == old(configuration) && status == old(status)
      ensures repositories == old(repositories) && dialogs == old(dialogs)
    {
      sent := sent + [Message(SettingsType, FeStyleAction(configuration.frontendMode))];
    }

    method SetFeCompact()
      modifies this
      ensures sent == old(sent) + [Message(SettingsType, FeCompactAction(configuration.frontendCompact))]
      ensures configuration == old(configuration) && status == old(status)
      ensures repositories == old(repositories) && dialogs == old(dialogs)
    {
      sent := sent + [Message(SettingsType, FeCompactAction(configuration.frontendCompact))];
    }

    /** `ReloadData`: behind the background-task notice, or a confirmation
        whose positive answer (`confirmed`) sends `reload_data`. */
    method ReloadData(confirmed: bool, localize: string -> string)
      modifies this
      ensures status.backgroundTask ==>
        dialogs == old(dialogs) + [Dialog(localize("confirm.bg_task"), [])] && sent == old(sent)
      ensures !status.backgroundTask ==>
        dialogs == old(dialogs) + [Dialog(localize("confirm.reload_data") + "\n" + localize("confirm.continue"),
                                          [localize("confirm.no"), localize("confirm.yes")])] &&
        sent == old(sent) + (if confirmed then [Message(SettingsType, "reload_data")] else [])
      ensures configuration == old(configuration) && status == old(status) && repositories == old(repositories)
    {
      if status.backgroundTask {
        dialogs := dialogs + [Dialog(localize("confirm.bg_task"), [])];
        return;
      }
      dialogs := dialogs + [Dialog(localize("confirm.reload_data") + "\n" + localize("confirm.continue"),
                                   [localize("confirm.no"), localize("confirm.yes")])];
      if confirmed {
        sent := sent + [Message(SettingsType, "reload_data")];
      }
    }

    /** `UpgradeAll`: behind the background-task notice; otherwise the
        pending repositories are collected and, when there are any, listed
        in a confirmation whose positive answer sends `upgrade_all`. */
    method UpgradeAll(confirmed: bool, localize: string -> string)
      modifies this
      ensures status.backgroundTask ==>
        dialogs == old(dialogs) + [Dialog(localize("confirm.bg_task"), [])] && sent == old(sent)
      ensures !status.backgroundTask && PendingUpgrades(repositories) != [] ==>
        dialogs == old(dialogs) + [Dialog(UpgradeMessage(localize, PendingUpgrades(repositories)),
                                          [localize("confirm.no"), localize("confirm.yes")])] &&
        sent == old(sent) + (if confirmed then [Message(SettingsType, "upgrade_all")] else [])
      ensures !status.backgroundTask && PendingUpgrades(repositories) == [] ==>
        dialogs == old(dialogs) + [Dialog(localize("confirm.no_upgrades"), [localize("confirm.ok")])] &&
        sent == old(sent)
      ensures configuration == old(configuration) && status == old(status) && repositories == old(repositories)
    {
      if status.backgroundTask {
        dialogs := dialogs + [Dialog(localize("confirm.bg_task"), [])];
      } else {
        var elements := CollectPending(repositories);
        var dialog: Dialog;
        var reply: seq<Message> := [];
        if |elements| > 0 {
          var msg := UpgradeText(localize, elements);
          dialog := Dialog(msg, [localize("confirm.no"), localize("confirm.yes")]);
          if confirmed {
            reply := [Message(SettingsType, "upgrade_all")];
          }
        } else {
          dialog := Dialog(localize("confirm.no_upgrades"), [localize("confirm.ok")]);
        }
        dialogs := dialogs + [dialog];
        sent := sent + reply;
      }
    }
  }
}
