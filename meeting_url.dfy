/** The launcher's meeting-link handling: pulling the meeting id out of a join
    link, building the web-client link, and rewriting a link for the desktop
    application's `zoommtg://` scheme. */
module MeetingUrl {
  import opened Wrappers
  import opened Builtins

  const RenataHost := "renata.zoom.us"
  const RenataBase := "https://renata.zoom.us"
  const ZoomBase := "https://zoom.us"
  const JoinMarker := "/j/"
  const WebinarMarker := "/w/"
  const AppJoinPrefix := "zoommtg://zoom.us/join?confno="

  /** `tail` cut at its first '?': the longest '?'-free prefix of `tail`. */
  predicate IsCutAtQuery(tail: string, id: string)
  {
    && |id| <= |tail| && id == tail[..|id|]
    && '?' !in id
    && (|id| == |tail| || tail[|id|] == '?')
  }

  /** `url.split(marker)[-1].split("?")[0]`. */
  function IdAfter(url: string, marker: string): (id: string)
    requires marker != []
    ensures '?' !in id
  {
    var id := BeforeFirst(AfterLast(url, marker), "?");
    BeforeFirstIsPrefix(AfterLast(url, marker), "?");
    ContainsChar(id, '?');
    id
  }

  /** The id is taken from the text after the last occurrence of the marker
      (occurrences counted left to right without overlap), up to its first '?'. */
  lemma IdAfterLastMarker(url: string, marker: string)
    requires marker != [] && Contains(url, marker)
    ensures exists k: nat ::
      (OccursAt(url, marker, k)
       && !Contains(url[k + |marker|..], marker)
       && IsCutAtQuery(url[k + |marker|..], IdAfter(url, marker)))
  {
    var tail := AfterLast(url, marker);
    var k := AfterLastFollowsOccurrence(url, marker);
    AfterLastIsFree(url, marker);
    var id := IdAfter(url, marker);
    BeforeFirstIsPrefix(tail, "?");
    if |id| < |tail| {
      assert tail[|id|..|id| + 1] == "?";
      assert tail[|id|] == '?';
    }
    assert IsCutAtQuery(tail, id);
    assert OccursAt(url, marker, k);
  }

  /** `extract_meeting_id`: the id after the last of the non-overlapping
      `/j/` occurrences found left to right, or likewise for `/w/` when
      there is no `/j/`, cut at the first '?'; "" when neither marker
      occurs. (Its `try` never fires: splitting a string at a
      non-empty separator cannot raise.) */
  function ExtractMeetingId(meetingUrl: string): (id: string)
    ensures '?' !in id
    ensures !Contains(meetingUrl, JoinMarker) && !Contains(meetingUrl, WebinarMarker) ==> id == ""
  {
    if Contains(meetingUrl, JoinMarker) then IdAfter(meetingUrl, JoinMarker)
    else if Contains(meetingUrl, WebinarMarker) then IdAfter(meetingUrl, WebinarMarker)
    else ""
  }

  /** Which marker the id comes from, and what it is. */
  lemma ExtractMeetingIdSpec(meetingUrl: string)
    ensures var id := ExtractMeetingId(meetingUrl);
      var m := if Contains(meetingUrl, JoinMarker) then JoinMarker else WebinarMarker;
      && (Contains(meetingUrl, JoinMarker) || Contains(meetingUrl, WebinarMarker) ==>
            exists k: nat :: OccursAt(meetingUrl, m, k)
              && !Contains(meetingUrl[k + 3..], m)
              && IsCutAtQuery(meetingUrl[k + 3..], id))
      && (!Contains(meetingUrl, JoinMarker) && !Contains(meetingUrl, WebinarMarker) ==> id == "")
  {
    if Contains(meetingUrl, JoinMarker) {
      IdAfterLastMarker(meetingUrl, JoinMarker);
    } else if Contains(meetingUrl, WebinarMarker) {
      IdAfterLastMarker(meetingUrl, WebinarMarker);
    }
  }

  /** Where `/j/` markers overlap, the id follows the last cut `split` makes
      scanning left to right, not the last `/j/`: `split` cuts after the
      `/j/` at index 1 and resumes past it, so the `/j/` at index 3 is never
      seen. */
  lemma ExtractMeetingIdOverlapping()
    ensures ExtractMeetingId("x/j/j/5") == "j/5"
  {
    var u := "x/j/j/5";
    assert u[0..3][0] == 'x';
    assert !OccursAt(u, JoinMarker, 0);
    assert OccursAt(u, JoinMarker, 1);
    assert Find(u, JoinMarker) == Some(1);
    var rest := u[4..];
    assert rest == "j/5";
    assert rest[0..3][0] == 'j';
    assert !OccursAt(rest, JoinMarker, 0);
    assert Find(rest, JoinMarker) == None;
    assert Split(rest, JoinMarker) == [rest];
    assert u[..1] == "x";
    assert Split(u, JoinMarker) == [u[..1]] + Split(rest, JoinMarker);
    assert AfterLast(u, JoinMarker) == "j/5";
    assert "j/5"[0..1][0] == 'j' && "j/5"[1..2][0] == '/' && "j/5"[2..3][0] == '5';
    assert FindFrom("j/5", "?", 3) == None;
    assert FindFrom("j/5", "?", 2) == None;
    assert FindFrom("j/5", "?", 1) == None;
    assert Find("j/5", "?") == None;
    assert Split("j/5", "?") == ["j/5"];
  }

  // ---------------------------------------------------------------- web client

  /** The four web-client link prefixes: tenant, then `/wc/host/` or `/wc/join/`. */
  function WebclientPrefix(renata: bool, host: bool): string
  {
    (if renata then RenataBase else ZoomBase) + (if host then "/wc/host/" else "/wc/join/")
  }

  /** `build_webclient_url(meeting_url, as_host, display_name)`. The tenant is
      renata.zoom.us when the link mentions it; an empty id gives the link
      back unchanged; renata.zoom.us always gets a join link; zoom.us gets a
      host link when `as_host` holds and a join link otherwise. */
  function BuildWebclientUrl(meetingUrl: string, asHost: bool, displayName: string): (r: string)
    ensures ExtractMeetingId(meetingUrl) == "" ==> r == meetingUrl
  {
    var base := if Contains(meetingUrl, RenataHost) then RenataBase else ZoomBase;
    var mid := ExtractMeetingId(meetingUrl);
    if mid == "" then meetingUrl
    else if Contains(base, RenataHost) then base + "/wc/join/" + mid + "?uname=" + Quote(displayName)
    else if asHost then base + "/wc/host/" + mid + "?prefer=1"
    else base + "/wc/join/" + mid + "?uname=" + Quote(displayName)
  }

  /** What a web-client link carries. */
  datatype WebclientLink = WebclientLink(renata: bool, host: bool, meetingId: string, query: string)

  function StartsWith(s: string, prefix: string): bool
  {
    |prefix| <= |s| && s[..|prefix|] == prefix
  }

  /** Reads a web-client link back: its tenant and role from the prefix,
      the meeting id up to the first '?', and the query after it. */
  function ParseWebclient(u: string): Option<WebclientLink>
  {
    if StartsWith(u, WebclientPrefix(true, false)) then SplitQuery(true, false, u[|WebclientPrefix(true, false)|..])
    else if StartsWith(u, WebclientPrefix(true, true)) then SplitQuery(true, true, u[|WebclientPrefix(true, true)|..])
    else if StartsWith(u, WebclientPrefix(false, false)) then SplitQuery(false, false, u[|WebclientPrefix(false, false)|..])
    else if StartsWith(u, WebclientPrefix(false, true)) then SplitQuery(false, true, u[|WebclientPrefix(false, true)|..])
    else None
  }

  function SplitQuery(renata: bool, host: bool, rest: string): Option<WebclientLink>
  {
    match Find(rest, "?")
    case None => None
    case Some(i) => Some(WebclientLink(renata, host, rest[..i], rest[i + 1..]))
  }

  lemma RenataBaseMentionsRenata()
    ensures Contains(RenataBase, RenataHost)
    ensures !Contains(ZoomBase, RenataHost)
  {
    assert OccursAt(RenataBase, RenataHost, 8);
    forall i: nat ensures !OccursAt(ZoomBase, RenataHost, i) {
      if i + |RenataHost| <= |ZoomBase| {
        assert i <= 1;
        assert ZoomBase[i] != RenataHost[0];
      }
    }
  }

  lemma SplitQueryOf(renata: bool, host: bool, id: string, q: string)
    requires '?' !in id
    ensures SplitQuery(renata, host, id + "?" + q) == Some(WebclientLink(renata, host, id, q))
  {
    var rest := id + "?" + q;
    assert OccursAt(rest, "?", |id|);
    forall j: nat | j < |id| ensures !OccursAt(rest, "?", j) {
      assert rest[j..j + 1] == [id[j]];
    }
    FindIs(rest, "?", |id|);
    assert rest[..|id|] == id && rest[|id| + 1..] == q;
  }

  lemma ParsePrefixed(renata: bool, host: bool, id: string, q: string)
    requires '?' !in id
    ensures ParseWebclient(WebclientPrefix(renata, host) + id + "?" + q) == Some(WebclientLink(renata, host, id, q))
  {
    var p := WebclientPrefix(renata, host);
    var u := p + id + "?" + q;
    assert u[..|p|] == p;
    assert u[|p|..] == id + "?" + q;
    ParseAfterPrefix(renata, host, u);
    SplitQueryOf(renata, host, id, q);
  }

  /** A link that starts with one of the four prefixes is read with that
      prefix's tenant and role. */
  lemma ParseAfterPrefix(renata: bool, host: bool, u: string)
    requires StartsWith(u, WebclientPrefix(renata, host))
    ensures ParseWebclient(u) == SplitQuery(renata, host, u[|WebclientPrefix(renata, host)|..])
  {
    var p := WebclientPrefix(renata, host);
    // the four prefixes differ from one another inside their common length:
    // at index 8 in the tenant, and at index 26 (renata) or 19 (zoom.us) in the role
    var rj, rh, zj, zh := WebclientPrefix(true, false), WebclientPrefix(true, true), WebclientPrefix(false, false), WebclientPrefix(false, true);
    if renata {
      DiffersAt(u, p, zj, 8);
      DiffersAt(u, p, zh, 8);
      if host { DiffersAt(u, p, rj, 26); }
    } else {
      DiffersAt(u, p, rj, 8);
      DiffersAt(u, p, rh, 8);
      if host { DiffersAt(u, p, zj, 19); }
    }
  }

  lemma DiffersAt(u: string, p: string, other: string, k: nat)
    requires StartsWith(u, p) && k < |p| && k < |other| && p[k] != other[k]
    ensures !StartsWith(u, other)
  {
    assert u[k] == u[..|p|][k] == p[k];
  }

  /** A built web-client link reads back as: the tenant of the original link,
      a host link exactly for zoom.us with `as_host` (renata.zoom.us never
      gets one), the same meeting id, and a query that is `prefer=1` for a
      host link and `uname=` with the quoted display name otherwise. */
  lemma WebclientUrlRoundTrip(meetingUrl: string, asHost: bool, displayName: string)
    requires ExtractMeetingId(meetingUrl) != ""
    ensures var renata := Contains(meetingUrl, RenataHost);
      var host := asHost && !renata;
      ParseWebclient(BuildWebclientUrl(meetingUrl, asHost, displayName))
        == Some(WebclientLink(renata, host, ExtractMeetingId(meetingUrl),
                              if host then "prefer=1" else "uname=" + Quote(displayName)))
  {
    var renata := Contains(meetingUrl, RenataHost);
    var host := asHost && !renata;
    var q := if host then "prefer=1" else "uname=" + Quote(displayName);
    BuildWebclientUrlShape(meetingUrl, asHost, displayName);
    ParsePrefixed(renata, host, ExtractMeetingId(meetingUrl), q);
  }

  /** A built link is one of the four prefixes, the id, '?' and the query. */
  lemma BuildWebclientUrlShape(meetingUrl: string, asHost: bool, displayName: string)
    requires ExtractMeetingId(meetingUrl) != ""
    ensures var renata := Contains(meetingUrl, RenataHost);
      var host := asHost && !renata;
      BuildWebclientUrl(meetingUrl, asHost, displayName)
        == WebclientPrefix(renata, host) + ExtractMeetingId(meetingUrl) + "?"
           + (if host then "prefer=1" else "uname=" + Quote(displayName))
  {
    if Contains(meetingUrl, RenataHost) {
      RenataAlwaysJoins(meetingUrl, asHost, displayName);
    } else if asHost {
      ZoomHostWhenAsked(meetingUrl, displayName);
    } else {
      ZoomJoinOtherwise(meetingUrl, displayName);
    }
  }

  /** How a built link regroups into prefix, id, '?' and query, stated on
      plain strings so the link lemmas need not rediscover it. */
  lemma Regroup(base: string, role: string, mid: string, query: string, key: string, value: string)
    requires query == ['?'] + key
    ensures base + role + mid + query + value == (base + role) + mid + "?" + (key + value)
  {
  }

  /** The two query literals start with the '?' that separates them. */
  lemma QueryLiterals()
    ensures "?uname=" == ['?'] + "uname=" && "?prefer=1" == ['?'] + "prefer=1"
  {
  }

  /** A link that mentions renata.zoom.us and carries an id always gets the
      renata.zoom.us join link, whatever `as_host` asks for. */
  lemma RenataAlwaysJoins(meetingUrl: string, asHost: bool, displayName: string)
    requires ExtractMeetingId(meetingUrl) != "" && Contains(meetingUrl, RenataHost)
    ensures BuildWebclientUrl(meetingUrl, asHost, displayName)
      == RenataBase + "/wc/join/" + ExtractMeetingId(meetingUrl) + "?uname=" + Quote(displayName)
    ensures BuildWebclientUrl(meetingUrl, asHost, displayName)
      == WebclientPrefix(true, false) + ExtractMeetingId(meetingUrl) + "?" + ("uname=" + Quote(displayName))
  {
    RenataBaseMentionsRenata();
    QueryLiterals();
    Regroup(RenataBase, "/wc/join/", ExtractMeetingId(meetingUrl), "?uname=", "uname=", Quote(displayName));
  }

  /** Any other link with an id gets the zoom.us host link when `as_host`
      holds ... */
  lemma ZoomHostWhenAsked(meetingUrl: string, displayName: string)
    requires ExtractMeetingId(meetingUrl) != "" && !Contains(meetingUrl, RenataHost)
    ensures BuildWebclientUrl(meetingUrl, true, displayName)
      == ZoomBase + "/wc/host/" + ExtractMeetingId(meetingUrl) + "?prefer=1"
    ensures BuildWebclientUrl(meetingUrl, true, displayName)
      == WebclientPrefix(false, true) + ExtractMeetingId(meetingUrl) + "?" + "prefer=1"
  {
    RenataBaseMentionsRenata();
    QueryLiterals();
    Regroup(ZoomBase, "/wc/host/", ExtractMeetingId(meetingUrl), "?prefer=1", "prefer=1", []);
  }

  /** ... and the zoom.us join link with the quoted display name otherwise. */
  lemma ZoomJoinOtherwise(meetingUrl: string, displayName: string)
    requires ExtractMeetingId(meetingUrl) != "" && !Contains(meetingUrl, RenataHost)
    ensures BuildWebclientUrl(meetingUrl, false, displayName)
      == ZoomBase + "/wc/join/" + ExtractMeetingId(meetingUrl) + "?uname=" + Quote(displayName)
    ensures BuildWebclientUrl(meetingUrl, false, displayName)
      == WebclientPrefix(false, false) + ExtractMeetingId(meetingUrl) + "?" + ("uname=" + Quote(displayName))
  {
    RenataBaseMentionsRenata();
    QueryLiterals();
    Regroup(ZoomBase, "/wc/join/", ExtractMeetingId(meetingUrl), "?uname=", "uname=", Quote(displayName));
  }

  // ---------------------------------------------------------------- desktop app

  /** The link rewrite in `abrir_zoom_app`: a link containing `zoom.us/j/`
      becomes `zoommtg://zoom.us/join?confno=<id>`; any other link is used
      as it is. */
  function ZoomAppUrl(url: string): string
  {
    if Contains(url, "zoom.us/j/") then AppJoinPrefix + IdAfter(url, JoinMarker) else url
  }

  /** The app link carries exactly the meeting id `extract_meeting_id` finds,
      and a link without `zoom.us/j/` (a webinar `/w/` link, say) is passed
      through unchanged. */
  lemma ZoomAppUrlCarriesMeetingId(url: string)
    ensures Contains(url, "zoom.us/j/") ==>
      ZoomAppUrl(url) == AppJoinPrefix + ExtractMeetingId(url)
      && ExtractMeetingId(url) == ZoomAppUrl(url)[|AppJoinPrefix|..]
      && '?' !in ZoomAppUrl(url)[|AppJoinPrefix|..]
    ensures !Contains(url, "zoom.us/j/") ==> ZoomAppUrl(url) == url
  {
    if Contains(url, "zoom.us/j/") {
      ContainsInfix(url, "zoom.us/j/", 7, 10);
      assert "zoom.us/j/"[7..10] == JoinMarker;
    }
  }
}
