/** The `CgiNodeConfig` object: template markers and session settings. */
module Config {

  /** Opening marker of an embedded code block. */
  const StartTag: string := "<?"

  /** Closing marker of an embedded code block. */
  const EndTag: string := "?>"

  /** Name of the cookie that carries the session id. */
  const SessionCookie: string := "CGI-NODE-SESSIONID"

  /** Session lifetime in milliseconds: 15 minutes. */
  const SessionTimeOut: int := 15 * 60 * 1000

  /** Directory that holds one file per session. */
  const SessionPath: string := "D:/Programs/nodejs/sessions/"
}
