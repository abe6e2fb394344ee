/** Which parsed URLs `browser.open` admits for a project. */
module Allowlist {
  import opened Prelude
  import opened Separated
  import opened HostLabel

  const OBSERVATORIUM_HOST := "observatorium.tillandsias.localhost"

  datatype UrlHost = NoHost | Domain(name: string) | Ipv4(text: string) | Ipv6(text: string)

  datatype Url = Url(scheme: string, username: string, password: Option<string>, host: UrlHost, port: Option<nat>)

  datatype Deny =
    | InvalidUrl | UnsupportedScheme(scheme: string) | MissingHost | IpLiteral | BareLocalhost | UserInfo
    | WrongPort(port: nat, given: Option<nat>) | ProjectMismatch(expected: string, actual: string)
    | OpencodeSelf | HostShape

  datatype Verdict = Admitted(host: string, project: string, service: string) | Denied(reason: Deny)

  function HostStr(u: Url): Option<string> {
    match u.host
    case NoHost => None
    case Domain(name) => Some(name)
    case Ipv4(text) => Some(text)
    case Ipv6(text) => Some(text)
  }

  function EffectivePort(u: Url): nat {
    if u.port.Some? then u.port.value else if u.scheme == "https" then 443 else 80
  }

  predicate PortAdmitted(scheme: string, port: nat, preview: Option<nat>) {
    port == 8080 || port == 80 || (scheme == "https" && Some(port) == preview)
  }

  predicate Contains(s: string, c: char) { exists i :: 0 <= i < |s| && s[i] == c }

  predicate EndsWith(s: string, tail: string) { |s| >= |tail| && s[|s| - |tail|..] == tail }

  function Validate(parsed: Option<Url>, project: string, preview: Option<nat>): Verdict {
    if parsed.None? then Denied(InvalidUrl)
    else
      var u := parsed.value;
      if u.scheme != "http" && u.scheme != "https" then Denied(UnsupportedScheme(u.scheme))
      else if u.username != "" || u.password.Some? then Denied(UserInfo)
      else if HostStr(u).None? then Denied(MissingHost)
      else
        var host := HostStr(u).value;
        if host == OBSERVATORIUM_HOST then
          if u.scheme != "https" then Denied(UnsupportedScheme(u.scheme))
          else if u.port.Some? && u.port.value != 443 then Denied(WrongPort(443, u.port))
          else Admitted(host, project, "observatorium")
        else if !PortAdmitted(u.scheme, EffectivePort(u), preview) then Denied(WrongPort(8080, u.port))
        else if !u.host.Domain? then Denied(IpLiteral)
        else if host == "localhost" || (EndsWith(host, ".localhost") && !Contains(host, '.')) then Denied(BareLocalhost)
        else
          var labels := Split(host, '.');
          if |labels| < 3 || labels[|labels| - 1] != "localhost" then Denied(HostShape)
          else
            var service, actual := labels[0], Join(labels[1..|labels| - 1], '.');
            var expected := ProjectHostLabel(project);
            if expected != Host(actual) then
              Denied(ProjectMismatch(if expected.Host? then expected.name else project, actual))
            else if service == "opencode" then Denied(OpencodeSelf)
            else Admitted(host, project, service)
  }

  /** The host of a service of the project. */
  function ServiceHost(service: string, name: string): string { service + "." + name + ".localhost" }

  lemma {:induction false} JoinSnoc(parts: seq<string>, last: string, sep: char)
    requires |parts| > 0
    ensures Join(parts + [last], sep) == Join(parts, sep) + [sep] + last
  {
    if |parts| > 1 {
      JoinSnoc(parts[1..], last, sep);
      assert (parts + [last])[1..] == parts[1..] + [last];
    } else {
      assert (parts + [last])[1..] == [last];
    }
  }

  /** Three labels or more, joined: the first, the middle ones joined, and the last. */
  lemma JoinOfThree(labels: seq<string>, sep: char)
    requires |labels| >= 3
    ensures Join(labels, sep) == labels[0] + [sep] + Join(labels[1..|labels| - 1], sep) + [sep] + labels[|labels| - 1]
  {
    var middle, last := labels[1..|labels| - 1], labels[|labels| - 1];
    assert labels[1..] == middle + [last];
    JoinSnoc(middle, last, sep);
  }

  /** `s.L.localhost` splits back into `s` and `L`. */
  lemma ServiceHostSplits(service: string, name: string)
    requires Free(service, '.')
    ensures var labels := Split(ServiceHost(service, name), '.');
      && |labels| >= 3 && labels[0] == service && labels[|labels| - 1] == "localhost"
      && Join(labels[1..|labels| - 1], '.') == name
  {
    var middle := Split(name, '.');
    var labels := [service] + middle + ["localhost"];
    assert labels[1..|labels| - 1] == middle;
    assert Free("localhost", '.');
    JoinOfSplit(name, '.');
    JoinOfThree(labels, '.');
    assert Join(labels, '.') == ServiceHost(service, name);
    SplitOfJoin(labels, '.');
  }

  /** The scheme, the user info and the port, which every host but the observatorium's must get right. */
  predicate Plain(u: Url, preview: Option<nat>) {
    && (u.scheme == "http" || u.scheme == "https") && u.username == "" && u.password.None?
    && GoodPort(u, preview)
  }

  /** Port 8080 or 80 by any scheme, http without a port, and https on the preview's port, its own 443 among them. */
  predicate GoodPort(u: Url, preview: Option<nat>) {
    match u.port
    case Some(p) => p == 8080 || p == 80 || (u.scheme == "https" && preview == Some(p))
    case None => u.scheme != "https" || preview == Some(443)
  }

  lemma GoodPortsAreAdmitted(u: Url, preview: Option<nat>)
    ensures PortAdmitted(u.scheme, EffectivePort(u), preview) <==> GoodPort(u, preview)
  {}

  /**
    The observatorium aside, a URL is admitted, as `service` of the project,
    exactly when its host is `service.L.localhost` for the project's name L and
    a dot-free service other than opencode.
   */
  lemma AdmittedIffServiceHost(u: Url, project: string, preview: Option<nat>, service: string)
    requires HostStr(u) != Some(OBSERVATORIUM_HOST)
    ensures Validate(Some(u), project, preview) == Admitted(ServiceHost(service, ProjectLabel(project)), project, service)
      <==> (Plain(u, preview) && ProjectHostLabel(project).Host? && Free(service, '.') && service != "opencode"
            && u.host == Domain(ServiceHost(service, ProjectLabel(project))))
  {
    var host := ServiceHost(service, ProjectLabel(project));
    GoodPortsAreAdmitted(u, preview);
    hide ProjectHostLabel, Split, Join, PortAdmitted, GoodPort, EffectivePort, Contains, EndsWith;
    if Free(service, '.') { ServiceHostSplits(service, ProjectLabel(project)); }
    if u.host == Domain(host) { HostHasDots(service, ProjectLabel(project)); }
  }

  function ProjectLabel(project: string): string {
    var r := ProjectHostLabel(project);
    if r.Host? then r.name else ""
  }

  lemma HostHasDots(service: string, name: string)
    ensures var h := ServiceHost(service, name); h != "localhost" && Contains(h, '.')
  {
    var h := ServiceHost(service, name);
    assert h[|service|] == '.' && Free("localhost", '.');
  }

  /** Nothing else is admitted: an admitted host has that shape or is the observatorium over https on 443. */
  lemma AdmittedHasAShape(u: Url, project: string, preview: Option<nat>)
    requires Validate(Some(u), project, preview).Admitted?
    ensures var v := Validate(Some(u), project, preview);
      if HostStr(u) == Some(OBSERVATORIUM_HOST) then
        u.scheme == "https" && EffectivePort(u) == 443 && v.service == "observatorium"
      else
        ProjectHostLabel(project).Host? && Free(v.service, '.') && v.host == ServiceHost(v.service, ProjectLabel(project))
  {
    if HostStr(u) != Some(OBSERVATORIUM_HOST) {
      AdmittedLabels(u, project, preview);
      var host := HostStr(u).value;
      var labels := Split(host, '.');
      hide Validate, ProjectHostLabel, Join, ServiceHost;
      Assembled(labels);
      JoinOfSplit(host, '.');
    }
  }

  lemma Assembled(labels: seq<string>)
    requires |labels| >= 3 && labels[|labels| - 1] == "localhost"
    ensures Join(labels, '.') == ServiceHost(labels[0], Join(labels[1..|labels| - 1], '.'))
  {
    JoinOfThree(labels, '.');
    hide Join;
    var front := labels[0] + "." + Join(labels[1..|labels| - 1], '.');
    assert front + ['.'] + "localhost" == front + ".localhost";
  }

  lemma AdmittedLabels(u: Url, project: string, preview: Option<nat>)
    requires Validate(Some(u), project, preview).Admitted? && HostStr(u) != Some(OBSERVATORIUM_HOST)
    ensures var labels := Split(HostStr(u).value, '.');
      && |labels| >= 3 && labels[|labels| - 1] == "localhost"
      && ProjectHostLabel(project) == Host(Join(labels[1..|labels| - 1], '.'))
      && Validate(Some(u), project, preview) == Admitted(HostStr(u).value, project, labels[0])
  {
    hide ProjectHostLabel, Split, Join;
  }

  // ------------------------------------------------------------ the route allowlist

  datatype Routes = Routes(active: set<string>, preview: Option<nat>)

  function Decimal(n: nat): string {
    if n < 10 then [('0' as int + n) as char] else Decimal(n / 10) + [('0' as int + n % 10) as char]
  }

  predicate IsAllowed(r: Routes, parsed: Option<Url>) {
    && parsed.Some?
    && var u := parsed.value;
    && (u.scheme == "http" || u.scheme == "https")
    && HostStr(u).Some?
    && var host := HostStr(u).value;
    && var port := EffectivePort(u);
    if host == OBSERVATORIUM_HOST then
      u.scheme == "https" && u.username == "" && u.password.None? && (u.port.None? || u.port.value == 443)
    else if (host == "127.0.0.1" || host == "[::1]" || host == "::1") && (port == 8080 || port == 80) then true
    else
      && EndsWith(host, ".localhost") && !("opencode." <= host) && PortAdmitted(u.scheme, port, r.preview)
      && (r.active != {} ==> Routed(r, host, port))
  }

  predicate Routed(r: Routes, host: string, port: nat) {
    host + ":8080" in r.active || host + ":80" in r.active || host + ":" + Decimal(port) in r.active
  }

  /**
    The two checks agree: a URL that `Validate` admits passes the route
    allowlist exactly when no route is registered yet, or one is for its host,
    or it is the observatorium.
   */
  lemma AdmittedIsAllowedIffRouted(u: Url, project: string, r: Routes)
    requires Validate(Some(u), project, r.preview).Admitted?
    ensures IsAllowed(r, Some(u)) <==>
      (HostStr(u) == Some(OBSERVATORIUM_HOST) || r.active == {} || Routed(r, HostStr(u).value, EffectivePort(u)))
  {
    AdmittedHasAShape(u, project, r.preview);
    var v := Validate(Some(u), project, r.preview);
    if HostStr(u) != Some(OBSERVATORIUM_HOST) {
      ServiceHostIsLocal(v.service, ProjectLabel(project));
      hide ProjectHostLabel;
    }
  }

  lemma ServiceHostIsLocal(service: string, name: string)
    ensures var h := ServiceHost(service, name);
      && EndsWith(h, ".localhost") && h != "127.0.0.1" && h != "[::1]" && h != "::1"
      && (Free(service, '.') && service != "opencode" ==> !("opencode." <= h))
  {
    EndsLocal(service + "." + name);
    if Free(service, '.') && "opencode." <= ServiceHost(service, name) { OpencodeService(service, name); }
    hide ServiceHost, EndsWith;
  }

  lemma EndsLocal(front: string)
    ensures var h := front + ".localhost"; EndsWith(h, ".localhost") && h != "127.0.0.1" && h != "[::1]" && h != "::1"
  {
    var h := front + ".localhost";
    assert h[|h| - 10..] == ".localhost";
    assert h[|h| - 1] == 't';
  }

  /** A dot-free service is all of its host before the first dot. */
  lemma OpencodeService(service: string, name: string)
    requires Free(service, '.') && "opencode." <= ServiceHost(service, name)
    ensures service == "opencode"
  {
    var h, rest, tail := ServiceHost(service, name), ServiceHost(service, name)[9..], name + ".localhost";
    assert h == service + ['.'] + tail;
    assert h == "opencode" + ['.'] + rest && Free("opencode", '.');
    hide ServiceHost, Free, FirstSep;
    FirstSepAt("opencode", rest, '.');
    FirstSepAt(service, tail, '.');
    assert service == h[..8];
  }

  // ------------------------------------------------------------ the rest of both checks

  /** The observatorium is admitted for every project, over https on its own port and without user info, and not otherwise. */
  lemma ObservatoriumIff(u: Url, project: string, preview: Option<nat>)
    requires HostStr(u) == Some("observatorium.tillandsias.localhost")
    ensures Validate(Some(u), project, preview) == Admitted("observatorium.tillandsias.localhost", project, "observatorium")
      <==> (u.scheme == "https" && u.username == "" && u.password.None? && (u.port.None? || u.port == Some(443)))
    ensures Validate(Some(u), project, preview).Admitted?
      <==> (u.scheme == "https" && u.username == "" && u.password.None? && (u.port.None? || u.port == Some(443)))
  {
    hide ProjectHostLabel, Split, Join;
  }

  /**
    Why a URL is refused, the first cause in this order: it does not parse; its
    scheme; user info; no host; for the observatorium its scheme and port; for
    any other host the port; an address in place of a name; localhost itself;
    a name that is not three labels or more under localhost; another project's;
    and last the window's own service.
   */
  lemma RefusedFor(parsed: Option<Url>, project: string, preview: Option<nat>)
    ensures var v := Validate(parsed, project, preview);
      if parsed.None? then v == Denied(InvalidUrl)
      else
        var u := parsed.value;
        if u.scheme != "http" && u.scheme != "https" then v == Denied(UnsupportedScheme(u.scheme))
        else if u.username != "" || u.password != None then v == Denied(UserInfo)
        else if u.host.NoHost? then v == Denied(MissingHost)
        else if HostStr(u) == Some("observatorium.tillandsias.localhost") then
          if u.scheme == "http" then v == Denied(UnsupportedScheme("http"))
          else v.Admitted? || (v == Denied(WrongPort(443, u.port)) && u.port.Some? && u.port != Some(443))
        else if !GoodPort(u, preview) then v == Denied(WrongPort(8080, u.port))
        else if u.host.Ipv4? || u.host.Ipv6? then v == Denied(IpLiteral)
        else if u.host == Domain("localhost") then v == Denied(BareLocalhost)
        else v.Admitted? || v.reason in {HostShape, OpencodeSelf} || v.reason.ProjectMismatch?
  {
    if parsed.Some? {
      GoodPortsAreAdmitted(parsed.value, preview);
      if parsed.value.host.Domain? { LocalhostNeedsADot(parsed.value.host.name); }
    }
    hide ProjectHostLabel, Split, Join, PortAdmitted, GoodPort, EffectivePort, Contains, EndsWith;
  }

  /** Only localhost itself ends as it does without a dot: the dotless check never adds a host. */
  lemma LocalhostNeedsADot(host: string)
    ensures !(EndsWith(host, ".localhost") && !Contains(host, '.'))
  {
    if EndsWith(host, ".localhost") {
      var k := |host| - 10;
      assert host[k] == host[k..][0] == '.';
    }
  }

  /** A host that names another project is refused by the name it has and the one expected; the window's own service by that. */
  lemma RefusedByName(u: Url, project: string, preview: Option<nat>, service: string, name: string)
    requires Plain(u, preview) && Free(service, '.') && u.host == Domain(ServiceHost(service, name))
    requires HostStr(u) != Some(OBSERVATORIUM_HOST)
    ensures ProjectHostLabel(project) != Host(name) ==>
      Validate(Some(u), project, preview)
        == Denied(ProjectMismatch(if ProjectHostLabel(project).Host? then ProjectHostLabel(project).name else project, name))
    ensures ProjectHostLabel(project) == Host(name) && service == "opencode" ==>
      Validate(Some(u), project, preview) == Denied(OpencodeSelf)
  {
    hide ProjectHostLabel, Split, Join, PortAdmitted, GoodPort, EffectivePort, Contains, EndsWith, ServiceHost, Free;
    GoodPortsAreAdmitted(u, preview);
    ServiceHostSplits(service, name);
    HostHasDots(service, name);
  }

  /** Loopback addresses pass the route allowlist on 80 and 8080, whatever routes there are. */
  lemma LoopbackIsAllowed(r: Routes, u: Url)
    requires HostStr(u) in {Some("127.0.0.1"), Some("[::1]"), Some("::1")} && (u.scheme == "http" || u.scheme == "https")
    ensures IsAllowed(r, Some(u)) <==> (u.port in {Some(80), Some(8080)} || (u.port.None? && u.scheme == "http"))
  {
    assert |"127.0.0.1"| < 10 && |"[::1]"| < 10 && |"::1"| < 10;
  }

  /** Any other host passes exactly under localhost, not as opencode, on a good port, and routed once any route is registered. */
  lemma OthersAreAllowedIff(r: Routes, u: Url)
    requires HostStr(u).Some? && HostStr(u).value != "observatorium.tillandsias.localhost" && HostStr(u).value !in {"127.0.0.1", "[::1]", "::1"}
    ensures var host := HostStr(u).value;
      IsAllowed(r, Some(u)) <==>
        && (u.scheme == "http" || u.scheme == "https") && GoodPort(u, r.preview)
        && EndsWith(host, ".localhost") && !("opencode." <= host)
        && (r.active == {} || exists p :: OpenPort(u, p) && host + ":" + p in r.active)
  {
    GoodPortsAreAdmitted(u, r.preview);
    var host := HostStr(u).value;
    hide PortAdmitted, GoodPort, EndsWith, EffectivePort, Decimal;
    assert host + ":8080" == host + ":" + "8080" && host + ":80" == host + ":" + "80";
    assert OpenPort(u, "8080") && OpenPort(u, "80") && OpenPort(u, Decimal(EffectivePort(u)));
  }

  /** The ports under which a route counts for a URL: the router's two and its own. */
  predicate OpenPort(u: Url, p: string) { p == "8080" || p == "80" || p == Decimal(EffectivePort(u)) }

  /** The decimal of a port reads back as the port. */
  function Read(digits: string): int {
    if digits == "" then 0 else 10 * Read(digits[..|digits| - 1]) + (digits[|digits| - 1] as int - '0' as int)
  }

  lemma {:induction false} DecimalReads(n: nat)
    ensures var d := Decimal(n);
      Read(d) == n && d != "" && (forall i :: 0 <= i < |d| ==> '0' <= d[i] <= '9') && (d[0] == '0' ==> n == 0)
  {
    var d := Decimal(n);
    if n < 10 {
      assert d[..0] == "";
    } else {
      DecimalReads(n / 10);
      assert d[..|d| - 1] == Decimal(n / 10);
    }
  }
}
