/** The `RigError` family of utils/errors.py: each constructor builds a
    message and a remediation suggestion from optional context. Optional
    context is judged by Python truthiness, so an empty string counts as
    absent. */
module Errors {
  import opened Wrappers
  import opened Text

  /** The subclass and the context it stores. */
  datatype Kind =
    | Base
    | Network(url: Option<string>)
    | Permission(command: Option<string>)
    | PackageManager(package: Option<string>)
    | CommandNotFound(missing: string)
    | Installation(tool: Option<string>, recoverySteps: seq<string>)
    | Validation(field: Option<string>)
    | Configuration(configFile: Option<string>)

  datatype RigError = RigError(kind: Kind, message: string, suggestion: Option<string>)

  /** `str(e)`: the exception's single argument, its message. */
  function Str(e: RigError): string {
    e.message
  }

  /** The plain base class: message and suggestion as given. */
  function NewRigError(message: string, suggestion: Option<string>): (e: RigError)
    ensures Str(e) == message && e.suggestion == suggestion
  {
    RigError(Base, message, suggestion)
  }

  const NetworkAdvice := "Check your internet connection and try again. "

  function NewNetworkError(message: string, url: Option<string>): (e: RigError)
    ensures Str(e) == message && e.kind == Network(url)
    ensures e.suggestion.Some? && StartsWith(e.suggestion.value, NetworkAdvice)
    ensures !Truthy(url) ==> e.suggestion == Some(NetworkAdvice)
    ensures Truthy(url) ==> Between(e.suggestion.value, NetworkAdvice + "URL: ", "") == Some(url.value)
  {
    var tail := if Truthy(url) then "URL: " + url.value else "";
    BetweenFilled(NetworkAdvice + "URL: ", url.GetOr(""), "");
    assert Truthy(url) ==> NetworkAdvice + tail == NetworkAdvice + "URL: " + url.value + "";
    assert !Truthy(url) ==> NetworkAdvice + tail == NetworkAdvice;
    RigError(Network(url), message, Some(NetworkAdvice + tail))
  }

  const PermissionAdvice := "This operation requires administrator privileges. "

  function NewPermissionError(message: string, command: Option<string>): (e: RigError)
    ensures Str(e) == message && e.kind == Permission(command)
    ensures e.suggestion.Some? && StartsWith(e.suggestion.value, PermissionAdvice)
    ensures Truthy(command) ==>
      Between(e.suggestion.value, PermissionAdvice + "Try running with sudo: sudo ", "") == Some(command.value)
    ensures !Truthy(command) ==> e.suggestion == Some(PermissionAdvice + "Try running with sudo.")
  {
    var hint := if Truthy(command) then "Try running with sudo: sudo " + command.value
                else "Try running with sudo.";
    BetweenFilled(PermissionAdvice + "Try running with sudo: sudo ", command.GetOr(""), "");
    assert Truthy(command) ==>
      PermissionAdvice + hint == PermissionAdvice + "Try running with sudo: sudo " + command.value + "";
    RigError(Permission(command), message, Some(PermissionAdvice + hint))
  }

  const UpdateListsStep := "Try updating package lists: sudo apt update"
  const LockedFilesStep := "Check for locked files: sudo killall apt apt-get"

  /** The remediation steps of a package-manager failure, in order. */
  function PackageManagerSteps(package: Option<string>): (steps: seq<string>)
    ensures |steps| == (if Truthy(package) then 4 else 2)
    ensures steps[0] == UpdateListsStep && steps[|steps| - 1] == LockedFilesStep
    ensures Truthy(package) ==>
      && Between(steps[1], "Check if package exists: apt search ", "") == Some(package.value)
      && Between(steps[2], "Try installing manually: sudo apt install ", "") == Some(package.value)
  {
    var middle :=
      if Truthy(package) then
        BetweenFilled("Check if package exists: apt search ", package.value, "");
        BetweenFilled("Try installing manually: sudo apt install ", package.value, "");
        assert "Check if package exists: apt search " + package.value
            == "Check if package exists: apt search " + package.value + "";
        assert "Try installing manually: sudo apt install " + package.value
            == "Try installing manually: sudo apt install " + package.value + "";
        ["Check if package exists: apt search " + package.value,
         "Try installing manually: sudo apt install " + package.value]
      else [];
    [UpdateListsStep] + middle + [LockedFilesStep]
  }

  function NewPackageManagerError(message: string, package: Option<string>): (e: RigError)
    ensures Str(e) == message && e.kind == PackageManager(package)
    ensures e.suggestion == Some(Join(PackageManagerSteps(package), " | "))
    ensures StartsWith(e.suggestion.value, UpdateListsStep)
    ensures EndsWith(e.suggestion.value, LockedFilesStep)
  {
    var steps := PackageManagerSteps(package);
    JoinEnds(steps, " | ");
    RigError(PackageManager(package), message, Some(Join(steps, " | ")))
  }

  function NewCommandNotFoundError(command: string): (e: RigError)
    ensures e.kind == CommandNotFound(command)
    ensures Between(Str(e), "Command not found: ", "") == Some(command)
    ensures e.suggestion.Some?
    ensures Between(e.suggestion.value, "Install ", " using your package manager (apt, yum, etc.)")
         == Some(command)
  {
    BetweenFilled("Command not found: ", command, "");
    BetweenFilled("Install ", command, " using your package manager (apt, yum, etc.)");
    assert "Command not found: " + command == "Command not found: " + command + "";
    RigError(CommandNotFound(command), "Command not found: " + command,
             Some("Install " + command + " using your package manager (apt, yum, etc.)"))
  }

  const LogsStep := "Check system logs for more details"

  /** Recovery steps win over the tool template; with neither, a generic hint.
      `None` and `[]` both mean "no steps" and are stored as `[]`. */
  function NewInstallationError(message: string, tool: Option<string>, recoverySteps: Option<seq<string>>)
    : (e: RigError)
    ensures Str(e) == message && e.suggestion.Some?
    ensures e.kind.Installation? && e.kind.tool == tool
    ensures e.kind.recoverySteps == (if recoverySteps.Some? then recoverySteps.value else [])
    ensures recoverySteps.Some? && |recoverySteps.value| > 0 ==>
      e.suggestion.value == Join(recoverySteps.value, " | ")
    ensures (recoverySteps.None? || |recoverySteps.value| == 0) && Truthy(tool) ==>
      Between(e.suggestion.value, "Try installing ", " manually | " + LogsStep + " | Ensure all dependencies are installed")
        == Some(tool.value)
    ensures (recoverySteps.None? || |recoverySteps.value| == 0) && !Truthy(tool) ==>
      e.suggestion.value == LogsStep
  {
    var post := " manually | " + LogsStep + " | Ensure all dependencies are installed";
    var suggestion :=
      if recoverySteps.Some? && |recoverySteps.value| > 0 then Join(recoverySteps.value, " | ")
      else if Truthy(tool) then
        BetweenFilled("Try installing ", tool.value, post);
        "Try installing " + tool.value + post
      else LogsStep;
    var stored := if recoverySteps.Some? then recoverySteps.value else [];
    RigError(Installation(tool, stored), message, Some(suggestion))
  }

  function NewValidationError(message: string, field: Option<string>): (e: RigError)
    ensures Str(e) == message && e.kind == Validation(field) && e.suggestion.Some?
    ensures Truthy(field) ==>
      Between(e.suggestion.value, "Check the ", " value and try again") == Some(field.value)
    ensures !Truthy(field) ==> e.suggestion == Some("Check your input and try again")
  {
    BetweenFilled("Check the ", field.GetOr(""), " value and try again");
    var suggestion := if Truthy(field) then "Check the " + field.value + " value and try again"
                      else "Check your input and try again";
    RigError(Validation(field), message, Some(suggestion))
  }

  function NewConfigurationError(message: string, configFile: Option<string>): (e: RigError)
    ensures Str(e) == message && e.kind == Configuration(configFile) && e.suggestion.Some?
    ensures Truthy(configFile) ==>
      Between(e.suggestion.value, "Check permissions on ", "") == Some(configFile.value)
    ensures !Truthy(configFile) ==>
      e.suggestion == Some("Check configuration file permissions and content")
  {
    BetweenFilled("Check permissions on ", configFile.GetOr(""), "");
    var suggestion := if Truthy(configFile) then "Check permissions on " + configFile.value
                      else "Check configuration file permissions and content";
    assert Truthy(configFile) ==> suggestion == "Check permissions on " + configFile.value + "";
    RigError(Configuration(configFile), message, Some(suggestion))
  }

  /** The two templates of each optional-context constructor are told apart
      by the context's truthiness alone: an empty string behaves as `None`. */
  lemma EmptyContextIsAbsent(message: string)
    ensures NewNetworkError(message, Some("")).suggestion == NewNetworkError(message, None).suggestion
    ensures NewPermissionError(message, Some("")).suggestion == NewPermissionError(message, None).suggestion
    ensures NewPackageManagerError(message, Some("")).suggestion == NewPackageManagerError(message, None).suggestion
    ensures NewInstallationError(message, Some(""), Some([])).suggestion
         == NewInstallationError(message, None, None).suggestion
    ensures NewValidationError(message, Some("")).suggestion == NewValidationError(message, None).suggestion
    ensures NewConfigurationError(message, Some("")).suggestion == NewConfigurationError(message, None).suggestion
  {
  }
}
