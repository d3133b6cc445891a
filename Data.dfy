/** The records the front end receives from the HACS backend, reduced to the
    fields the modelled code reads. */
module Data {
  import opened Wrappers

  /** One repository as the backend reports it (`RepositoryData`). */
  datatype Repository = Repository(
    id: string,
    name: string,
    fullName: string,
    category: string,
    installed: bool,
    pendingUpgrade: bool,
    installedVersion: string,
    availableVersion: string,
    versionOrCommit: string,
    releases: seq<string>,
    defaultBranch: string,
    hideDefaultBranch: bool,
    updatedInfo: bool,
    additionalInfo: Option<string>,
    status: string)

  /** The user-facing settings (`Configuration`). */
  datatype Configuration = Configuration(
    frontendMode: string,
    frontendCompact: bool,
    onboardingDone: bool)

  /** The backend's run state (`Status`). */
  datatype Status = Status(backgroundTask: bool, disabled: bool)

  /** A websocket message `{type, action}` sent to the backend. */
  datatype Message = Message(kind: string, action: string)

  /** A repository action (`hacs-repository-action` event or websocket call):
      the repository id, which may be unset, the action and its optional data. */
  datatype RepositoryAction = RepositoryAction(repo: Option<string>, action: string, data: Option<string>)
}
