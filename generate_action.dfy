/**
 * The one use of the string helpers in the generate action that the model
 * keeps: when generation throws, the notifier shows the exception's message,
 * or the text "生成失败" ("generation failed") when the message is null or empty.
 */
module GenerateAction {
  import opened Wrappers
  import StringExt

  /** "生成失败", written with escapes. */
  const GenerationFailed: string := "\U{751F}\U{6210}\U{5931}\U{8D25}"

  /** The error text shown for a failed generation whose exception carried `message`. */
  function FailureMessage(message: Option<string>): (r: string)
    ensures |r| > 0
    ensures message.Some? && message.value != [] ==> r == message.value
    ensures message.None? || message.value == [] ==> r == GenerationFailed
  {
    StringExt.Or(message, GenerationFailed)
  }
}
