/**
 * The error-behaviour policy and the three places where it decides what happens to
 * a shortcode that cannot be translated: `handleError`, the `undefined` branch of the
 * marker pass, and `getShortcodeReplacementText`.
 */
module Errors {
  import opened Common
  import opened Tokens

  /** The parser's `$error_behavior` setting. */
  datatype Policy = Strip | Warn | Leave | Error

  /** The markup WARN substitutes. */
  function Warning(msg: string): string {
    "<strong class=\"warning\">" + msg + "</strong>"
  }

  /**
   * `handleError($error, &$tag)` (src/Parsers/ShortcodeParser.php:436-458): ERROR aborts
   * with the message; every other policy turns the token into a literal whose content is
   * empty (STRIP), the warning (WARN) or the token's own text (LEAVE), and changes
   * nothing else about it.
   */
  function HandleError(policy: Policy, msg: string, t: Token): (r: Result<Token>)
    ensures r.Abort? <==> policy == Error
    ensures r.Abort? ==> r.message == msg
    ensures r.Ok? ==> r.value == t.(markerTag := Literal, content := r.value.content)
    ensures policy == Strip ==> r.Ok? && r.value.content == ""
    ensures policy == Warn ==> r.Ok? && r.value.content == Warning(msg)
    ensures policy == Leave ==> r.Ok? && r.value.content == t.text
  {
    match policy
    case Strip => Ok(t.(markerTag := Literal, content := ""))
    case Warn => Ok(t.(markerTag := Literal, content := Warning(msg)))
    case Leave => Ok(t.(markerTag := Literal, content := t.text))
    case Error => Abort(msg)
  }

  /**
   * What the ERROR policy raises for an `undefined` token (:551) or a handler that
   * failed (:873). Those calls pass the misspelt level `E_USER_ERRROR`, and PHP 8
   * throws reading that undefined constant, before `user_error` runs. The
   * "Unknown shortcode tag" message built for the call is therefore never raised.
   */
  function UndefinedLevelError(): string {
    UndefinedConstant("GovtNZ\\SilverStripe\\Parsers\\E_USER_ERRROR")
  }

  /** The message of the `Error` PHP 8 throws on reading an undefined constant. */
  function UndefinedConstant(name: string): string {
    "Undefined constant \"" + name + "\""
  }

  /**
   * The replacement for an `undefined` token in the marker pass (:537-556): None leaves
   * the span untouched (LEAVE); STRIP deletes it, WARN wraps its text, ERROR aborts with
   * the undefined-constant error.
   */
  function UndefinedReplacement(policy: Policy, t: Token): (r: Result<Option<string>>)
    ensures r.Abort? <==> policy == Error
    ensures r.Abort? ==> r.message == UndefinedLevelError()
    ensures r == Ok(None) <==> policy == Leave
    ensures policy == Strip ==> r == Ok(Some(""))
    ensures policy == Warn ==> r == Ok(Some(Warning(t.text)))
  {
    match policy
    case Strip => Ok(Some(""))
    case Warn => Ok(Some(Warning(t.text)))
    case Leave => Ok(None)
    case Error => Abort(UndefinedLevelError())
  }

  /**
   * `getShortcodeReplacementText` (:866-888) given what the handler call returned
   * (None for PHP's `false`): a returned string is used as it is; otherwise ERROR aborts
   * with the undefined-constant error, WARN wraps the token's text when HTML may be
   * inserted, STRIP gives the empty string, and every other case gives the token's own
   * text back.
   */
  function ShortcodeReplacementText(policy: Policy, called: Option<string>, t: Token, htmlAllowed: bool): (r: Result<string>)
    ensures called.Some? ==> r == Ok(called.value)
    ensures called.None? ==> (r.Abort? <==> policy == Error)
    ensures r.Abort? ==> r.message == UndefinedLevelError()
    ensures called.None? && policy == Warn && htmlAllowed ==> r == Ok(Warning(t.text))
    ensures called.None? && policy == Strip ==> r == Ok("")
    ensures called.None? && (policy == Leave || (policy == Warn && !htmlAllowed)) ==> r == Ok(t.text)
  {
    if called.Some? then Ok(called.value)
    else if policy == Error then Abort(UndefinedLevelError())
    else if policy == Warn && htmlAllowed then Ok(Warning(t.text))
    else if policy == Strip then Ok("")
    else Ok(t.text)
  }

  /**
   * The three sites agree on a token that cannot be translated: they abort together
   * (under ERROR), delete it together (STRIP), keep its text together (LEAVE), and WARN
   * shows the same warning for an undefined token and a failed handler where HTML is allowed.
   */
  lemma PolicySitesAgree(policy: Policy, t: Token)
    ensures HandleError(policy, t.text, t).Abort? == UndefinedReplacement(policy, t).Abort?
                                             == ShortcodeReplacementText(policy, None, t, true).Abort?
    ensures policy == Strip ==> HandleError(policy, t.text, t).value.content == UndefinedReplacement(policy, t).value.value
                                == ShortcodeReplacementText(policy, None, t, true).value == ""
    ensures policy == Leave ==> HandleError(policy, t.text, t).value.content == ShortcodeReplacementText(policy, None, t, true).value == t.text
    ensures policy == Warn ==> UndefinedReplacement(policy, t).value.value == ShortcodeReplacementText(policy, None, t, true).value
  {
  }
}
