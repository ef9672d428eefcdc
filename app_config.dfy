/** Application settings: the defaults, merging a partially filled settings
    file over them, loading, and setting the workspace root
    (crates/fn-config/src/lib.rs). Reading and writing the file, the TOML
    codec and the file-system probes are parameters. */
module AppConfig {
  import opened Wrappers
  import opened Text
  import opened Ints

  /** `AppConfig`; `usize` is taken to be 64 bits wide. */
  datatype Config = Config(
    autosaveMs: U64,
    theme: string,
    fontSize: U16,
    recentFilesLimit: U64,
    lineWidthHint: U16,
    uiLanguage: string,
    showDebugPanels: bool,
    workspaceRoot: Option<string>)

  /** `PartialConfig`: what a settings file provides, field by field. */
  datatype PartialConfig = PartialConfig(
    autosaveMs: Option<U64>,
    theme: Option<string>,
    fontSize: Option<U16>,
    recentFilesLimit: Option<U64>,
    lineWidthHint: Option<U16>,
    uiLanguage: Option<string>,
    showDebugPanels: Option<bool>,
    workspaceRoot: Option<string>)

  /** `ConfigError`; the payloads of foreign errors are kept as text. */
  datatype ConfigError =
    | Io(detail: string)
    | Parse(detail: string)
    | Serialize(detail: string)
    | HomeUnavailable
    | InvalidWorkspaceRoot(message: string)

  /** `AppConfig::default()`. */
  function Default(): Config {
    Config(1500, "light", 16, 20, 88, "en", false, None)
  }

  /** A workspace root is either absent or a non-blank path. */
  predicate ValidRoot(root: Option<string>) {
    root.None? || Trim(root.value) != ""
  }

  /** The `workspace_root` rule of `merge_with_default`: a blank root counts as absent. */
  function MergeRoot(root: Option<string>): (r: Option<string>)
    ensures ValidRoot(r)
    ensures r.Some? ==> r == root
  {
    match root
    case Some(path) => if Trim(path) == "" then None else Some(path)
    case None => Default().workspaceRoot
  }

  /** `merge_with_default`. */
  function MergeWithDefault(partial: PartialConfig): (r: Config)
    ensures ValidRoot(r.workspaceRoot)
  {
    var defaults := Default();
    Config(
      partial.autosaveMs.GetOr(defaults.autosaveMs),
      partial.theme.GetOr(defaults.theme),
      partial.fontSize.GetOr(defaults.fontSize),
      partial.recentFilesLimit.GetOr(defaults.recentFilesLimit),
      partial.lineWidthHint.GetOr(defaults.lineWidthHint),
      partial.uiLanguage.GetOr(defaults.uiLanguage),
      partial.showDebugPanels.GetOr(defaults.showDebugPanels),
      MergeRoot(partial.workspaceRoot))
  }

  /** The partial config a written settings file reads back as: every field present. */
  function Saved(c: Config): PartialConfig {
    PartialConfig(Some(c.autosaveMs), Some(c.theme), Some(c.fontSize), Some(c.recentFilesLimit),
      Some(c.lineWidthHint), Some(c.uiLanguage), Some(c.showDebugPanels), c.workspaceRoot)
  }

  const Empty: PartialConfig := PartialConfig(None, None, None, None, None, None, None, None)

  /** An empty settings file gives exactly the defaults. */
  lemma MergeEmptyIsDefault()
    ensures MergeWithDefault(Empty) == Default()
  {
  }

  /** Present fields win, absent fields fall back to the defaults, and a blank
      workspace root is dropped while any other one is kept verbatim. */
  lemma MergeFieldByField(p: PartialConfig)
    ensures var r := MergeWithDefault(p);
      (p.autosaveMs.Some? ==> r.autosaveMs == p.autosaveMs.value) &&
      (p.autosaveMs.None? ==> r.autosaveMs == Default().autosaveMs) &&
      (p.theme.Some? ==> r.theme == p.theme.value) &&
      (p.theme.None? ==> r.theme == Default().theme) &&
      (p.fontSize.Some? ==> r.fontSize == p.fontSize.value) &&
      (p.fontSize.None? ==> r.fontSize == Default().fontSize) &&
      (p.recentFilesLimit.Some? ==> r.recentFilesLimit == p.recentFilesLimit.value) &&
      (p.recentFilesLimit.None? ==> r.recentFilesLimit == Default().recentFilesLimit) &&
      (p.lineWidthHint.Some? ==> r.lineWidthHint == p.lineWidthHint.value) &&
      (p.lineWidthHint.None? ==> r.lineWidthHint == Default().lineWidthHint) &&
      (p.uiLanguage.Some? ==> r.uiLanguage == p.uiLanguage.value) &&
      (p.uiLanguage.None? ==> r.uiLanguage == Default().uiLanguage) &&
      (p.showDebugPanels.Some? ==> r.showDebugPanels == p.showDebugPanels.value) &&
      (p.showDebugPanels.None? ==> r.showDebugPanels == Default().showDebugPanels) &&
      (r.workspaceRoot.Some? <==> p.workspaceRoot.Some? && Trim(p.workspaceRoot.value) != "") &&
      (r.workspaceRoot.Some? ==> r.workspaceRoot == p.workspaceRoot)
  {
  }

  /** Writing a config out and merging it back gives the same config, as long as
      its workspace root is absent or non-blank (which every merged config's is). */
  lemma MergeSavedRoundTrip(c: Config)
    requires ValidRoot(c.workspaceRoot)
    ensures MergeWithDefault(Saved(c)) == c
  {
  }

  /** Merging is idempotent through a save. */
  lemma MergeIdempotent(p: PartialConfig)
    ensures MergeWithDefault(Saved(MergeWithDefault(p))) == MergeWithDefault(p)
  {
    MergeSavedRoundTrip(MergeWithDefault(p));
  }

  /** `load_from_path`. `file` is `None` when no file exists, and otherwise the
      result of reading it; `parse` stands for `toml::from_str`. */
  function LoadFromPath(file: Option<Result<string, ConfigError>>,
                        parse: string -> Result<PartialConfig, ConfigError>): (r: Result<Config, ConfigError>)
    ensures r.Ok? ==> ValidRoot(r.value.workspaceRoot)
    ensures file.None? ==> r == Ok(Default())
  {
    match file
    case None => Ok(Default())
    case Some(Err(e)) => Err(e)
    case Some(Ok(raw)) =>
      if Trim(raw) == "" then Ok(Default())
      else match parse(raw)
        case Err(e) => Err(e)
        case Ok(partial) => Ok(MergeWithDefault(partial))
  }

  /** A missing file, or one holding only white space, loads as the defaults,
      whatever the parser would say. */
  lemma BlankLoadsDefault(file: Option<Result<string, ConfigError>>,
                          parse: string -> Result<PartialConfig, ConfigError>)
    requires file.None? || (file.value.Ok? && IsBlank(file.value.value))
    ensures LoadFromPath(file, parse) == Ok(Default())
  {
    if file.Some? {
      TrimEmptyIffBlank(file.value.value);
    }
  }

  /** Errors from reading or parsing are passed through unchanged. */
  lemma LoadErrors(file: Option<Result<string, ConfigError>>,
                   parse: string -> Result<PartialConfig, ConfigError>)
    ensures file.Some? && file.value.Err? ==> LoadFromPath(file, parse) == Err(file.value.error)
    ensures file.Some? && file.value.Ok? && Trim(file.value.value) != "" && parse(file.value.value).Err? ==>
      LoadFromPath(file, parse) == Err(parse(file.value.value).error)
  {
  }

  /** Two configs that agree on every field but the workspace root. */
  predicate SameExceptRoot(a: Config, b: Config) {
    a.autosaveMs == b.autosaveMs && a.theme == b.theme && a.fontSize == b.fontSize &&
    a.recentFilesLimit == b.recentFilesLimit && a.lineWidthHint == b.lineWidthHint &&
    a.uiLanguage == b.uiLanguage && a.showDebugPanels == b.showDebugPanels
  }

  /** `set_workspace_root_at_path`. The probes of the file system are parameters:
      whether the path exists and is a directory, its canonical form, the
      config loaded from the settings file, and the outcome of writing it back. */
  function SetWorkspaceRootAtPath(workspacePath: string, pathExists: bool, isDir: bool,
                                  canonical: Result<string, ConfigError>,
                                  loaded: Result<Config, ConfigError>,
                                  written: Option<ConfigError>): (r: Result<Config, ConfigError>)
    ensures Trim(workspacePath) == "" ==> r == Err(InvalidWorkspaceRoot("workspace root is empty"))
    ensures r.Ok? ==>
      (canonical.Ok? && loaded.Ok? && written.None? &&
       r.value.workspaceRoot == Some(canonical.value) && SameExceptRoot(r.value, loaded.value))
  {
    if Trim(workspacePath) == "" then Err(InvalidWorkspaceRoot("workspace root is empty"))
    else if !pathExists then Err(InvalidWorkspaceRoot("workspace root does not exist: " + workspacePath))
    else if !isDir then Err(InvalidWorkspaceRoot("workspace root is not a directory: " + workspacePath))
    else match canonical
      case Err(e) => Err(e)
      case Ok(path) =>
        match loaded
        case Err(e) => Err(e)
        case Ok(config) =>
          var updated := config.(workspaceRoot := Some(path));
          match written
          case Some(e) => Err(e)
          case None => Ok(updated)
  }

  /** A missing directory, or a path that is not one, is rejected as an invalid root. */
  lemma SetRejectsMissing(workspacePath: string, pathExists: bool, isDir: bool,
                          canonical: Result<string, ConfigError>,
                          loaded: Result<Config, ConfigError>, written: Option<ConfigError>)
    requires !pathExists || !isDir
    ensures SetWorkspaceRootAtPath(workspacePath, pathExists, isDir, canonical, loaded, written).Err?
    ensures SetWorkspaceRootAtPath(workspacePath, pathExists, isDir, canonical, loaded, written).error.InvalidWorkspaceRoot?
  {
  }

  /** The saved config reloads with the new root: writing it and loading the file
      again (the TOML codec reading back what it wrote) gives the same config. */
  lemma SetThenReload(workspacePath: string, canonical: Result<string, ConfigError>,
                      loaded: Result<Config, ConfigError>, text: string,
                      parse: string -> Result<PartialConfig, ConfigError>)
    requires canonical.Ok? && Trim(canonical.value) != ""
    requires SetWorkspaceRootAtPath(workspacePath, true, true, canonical, loaded, None).Ok?
    requires Trim(text) != ""
    requires parse(text) == Ok(Saved(SetWorkspaceRootAtPath(workspacePath, true, true, canonical, loaded, None).value))
    ensures LoadFromPath(Some(Ok(text)), parse)
      == SetWorkspaceRootAtPath(workspacePath, true, true, canonical, loaded, None)
    ensures LoadFromPath(Some(Ok(text)), parse).value.workspaceRoot == Some(canonical.value)
  {
    var saved := SetWorkspaceRootAtPath(workspacePath, true, true, canonical, loaded, None).value;
    MergeSavedRoundTrip(saved);
  }
}
