/** `abrir_reunion`: which way a meeting is opened. Launching the desktop
    app or driving a browser is outside the model; what remains is the
    choice of launcher and the link or arguments handed to it. */
module Launcher {
  import opened Wrappers
  import opened Schedule
  import opened Builtins
  import opened MeetingUrl

  const DefaultMode := "zoom_app"
  const BrowserMode := "navegador_auto"
  const DefaultUserName := "Usuario"

  /** What `abrir_reunion` hands over: the desktop app with a (possibly
      rewritten) link, the automated browser with the meeting link, the
      display name and the incognito flag, or nothing for an unknown mode. */
  datatype Launch =
    | App(link: string)
    | Browser(url: string, userName: string, incognito: bool)
    | UnknownMode(mode: string)

  /** `reunion.get("modo", "zoom_app")`. */
  function Mode(reu: Reunion): string
  {
    reu.modo.GetOr(DefaultMode)
  }

  /** The dispatch of `abrir_reunion`. A missing mode means the desktop
      app, whose link is `url` rewritten to `zoommtg://` when it is a
      `zoom.us/j/` link; the browser gets the configured name (default
      "Usuario") and incognito flag (default false); any other mode opens
      nothing. */
  function LaunchFor(reu: Reunion): (l: Launch)
    ensures l.App? <==> reu.modo.None? || reu.modo == Some(DefaultMode)
    ensures l.App? ==> l.link == ZoomAppUrl(reu.url)
    ensures l.Browser? <==> reu.modo == Some(BrowserMode)
    ensures l.Browser? ==>
      l.url == reu.url
      && l.userName == (if reu.nombreUsuario.Some? then reu.nombreUsuario.value else DefaultUserName)
      && l.incognito == (reu.incognito == Some(true))
    ensures l.UnknownMode? ==> reu.modo.Some? && l.mode == reu.modo.value
  {
    var modo := Mode(reu);
    if modo == DefaultMode then App(ZoomAppUrl(reu.url))
    else if modo == BrowserMode then
      Browser(reu.url, reu.nombreUsuario.GetOr(DefaultUserName), reu.incognito.GetOr(false))
    else UnknownMode(modo)
  }

  /** Opening a `zoom.us/j/` meeting in the desktop app joins it by the
      meeting id that `extract_meeting_id` finds in its link. */
  lemma AppLaunchJoinsByMeetingId(reu: Reunion)
    requires Mode(reu) == DefaultMode
    ensures Contains(reu.url, "zoom.us/j/") ==>
      LaunchFor(reu) == App(AppJoinPrefix + ExtractMeetingId(reu.url))
    ensures !Contains(reu.url, "zoom.us/j/") ==> LaunchFor(reu) == App(reu.url)
  {
    ZoomAppUrlCarriesMeetingId(reu.url);
  }
}
