/** The user's output preferences, which the source keeps in a global
    `settings` record and every transform reads; here they are a value passed
    to each transform. */
module Preferences {

  /** Case of the letters a transform emits. */
  datatype CaseHandling =
    | PreserveCase   // keep the case of the input letter
    | UpperCase      // always emit the capital form
    | LowerCase      // always emit the small form

  /** Treatment of characters outside the alphabet. */
  datatype NonAlphaHandling =
    | KeepNonAlpha    // copy them unchanged
    | RemoveNonAlpha  // drop them
    | SpaceNonAlpha   // replace each with one space

  datatype Settings = Settings(caseHandling: CaseHandling, nonAlphaHandling: NonAlphaHandling)

  /** The preferences the application starts with. */
  const Defaults: Settings := Settings(PreserveCase, KeepNonAlpha)

  /** Whether a letter is emitted in capital form, given the policy and the
      case of the input letter. */
  predicate EmitCapital(h: CaseHandling, inputCapital: bool) {
    h == UpperCase || (h == PreserveCase && inputCapital)
  }

  /** What the Caesar and Trithemius transforms emit for a character outside
      the alphabet. */
  function NonAlphaOutput(h: NonAlphaHandling, c: char): string {
    match h
    case KeepNonAlpha => [c]
    case RemoveNonAlpha => ""
    case SpaceNonAlpha => " "
  }
}
