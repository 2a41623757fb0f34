/**
  The module-description contract that every Cupdeos module implements
  (ICupdeosModule), the dependency contract (ICupdeosDependency) and the
  readonly struct CupdeosDependency.

  Interfaces become datatypes: the Hub only ever reads their properties, so a
  module is the record of the values its getters return. A reference that the
  Hub tests for null is an Option; a Texture2D icon is reduced to whether it is
  present.
*/
module CupdeosModule {
  import opened Wrappers

  /** ICupdeosDependency and its implementation CupdeosDependency: an immutable
      value whose two properties are fixed when it is built. */
  datatype Dependency = Dependency(abbreviation: string, displayName: string)

  /** The CupdeosDependency constructor; the display name defaults to "". */
  function NewDependency(abbreviation: string, displayName: string := ""): (d: Dependency)
    ensures d.abbreviation == abbreviation
    ensures d.displayName == displayName
  {
    Dependency(abbreviation, displayName)
  }

  /** What an ICupdeosModule reports about itself. */
  datatype ModuleInfo = ModuleInfo(
    abbreviation: string,
    displayName: string,
    version: string,
    description: Option<string>,
    hasIcon: bool,                              // Icon != null; null means "use the default"
    author: string,
    documentationUrl: Option<string>,
    hasSettingsWindow: bool,
    requiredDependencies: Option<seq<Dependency>>,
    optionalDependencies: Option<seq<Dependency>>,
    status: Option<string>)                     // the value GetStatusMessage() returns

  /** string.IsNullOrEmpty */
  predicate IsNullOrEmpty(s: Option<string>) {
    s.None? || s.value == ""
  }

  /** The health-check contract of GetStatusMessage. */
  datatype Health = Healthy | NeedsAttention(message: string)

  function HealthOf(status: Option<string>): (h: Health)
    ensures h.Healthy? <==> IsNullOrEmpty(status)
    ensures h.NeedsAttention? ==> status == Some(h.message) && h.message != ""
  {
    match status
    case None => Healthy
    case Some(msg) => if msg == "" then Healthy else NeedsAttention(msg)
  }
}
