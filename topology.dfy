/**
 * The topology string: `;`-separated sections `port=downstreams`, each of
 * which becomes one proxy that is created and then made to listen
 * (`cproxy_init_string` in cproxy_config.c).
 */
module Topology {
  import opened Outcomes
  import opened CStrings
  import opened CNumbers
  import opened Behavior

  /** The name every proxy of a topology string gets. */
  const ProxyName: string := "default"

  /** The arguments of one `cproxy_create` call. */
  datatype ProxyRequest = ProxyRequest(
    name: string,
    port: int,
    config: string,
    configVersion: int,
    behavior: ProxyBehavior)

  /**
   * The collaborators whose code is not part of this model. Each sees every
   * request issued so far, the latest last: `create` tells whether
   * `cproxy_create` returned a proxy rather than NULL, and `listen` is the
   * count `cproxy_listen` returns for that proxy.
   */
  datatype Host = Host(create: seq<ProxyRequest> -> bool, listen: seq<ProxyRequest> -> int)

  /** The create requests issued, in order, and how the call ended. */
  datatype Startup = Startup(requests: seq<ProxyRequest>, end: Termination)

  /** The port and the downstream spec of a section, or why the section is fatal. */
  function Section(sect: string): Result<(int, string)>
  {
    var cut := Cut(sect, '=');
    if cut.1.None? then Err(MissingEquals)
    else
      var port := ParseLong(cut.0);
      if port <= 0 then Err(BadProxyPort) else Ok((port, cut.1.value))
  }

  /** The sections read one by one, in order. */
  function ParseSections(secs: seq<string>): (ps: seq<Result<(int, string)>>)
    ensures |ps| == |secs|
  {
    if secs == [] then [] else ParseSections(secs[..|secs| - 1]) + [Section(secs[|secs| - 1])]
  }

  /** The `cproxy_create` arguments for a section that parsed to `port` and `spec`. */
  function RequestOf(ps: (int, string), b: ProxyBehavior): ProxyRequest
  {
    ProxyRequest(ProxyName, ps.0, ps.1, 0, b)
  }

  /** The requests the sections that parsed ask for, in order. */
  function RequestsOf(ps: seq<Result<(int, string)>>, b: ProxyBehavior): (rs: seq<ProxyRequest>)
    ensures |rs| <= |ps|
  {
    if ps == [] then []
    else
      var last := ps[|ps| - 1];
      RequestsOf(ps[..|ps| - 1], b) + (if last.Ok? then [RequestOf(last.value, b)] else [])
  }

  /** One section after the earlier ones all succeeded with `requests` issued. */
  function SectionStep(requests: seq<ProxyRequest>, parsed: Result<(int, string)>, b: ProxyBehavior,
                       host: Host): Startup
  {
    match parsed
    case Err(e) => Startup(requests, Aborted(e))
    case Ok(ps) =>
      var issued := requests + [RequestOf(ps, b)];
      if !host.create(issued) then Startup(issued, Aborted(AllocFailed))
      else if host.listen(issued) <= 0 then Startup(issued, Aborted(ListenFailed))
      else Startup(issued, Returned(0))
  }

  /** The parsed sections handled left to right; the first fatal one ends it all. */
  function RunParsed(ps: seq<Result<(int, string)>>, b: ProxyBehavior, host: Host): Startup
  {
    if ps == [] then Startup([], Returned(0))
    else
      var prev := RunParsed(ps[..|ps| - 1], b, host);
      if prev.end.Aborted? then prev else SectionStep(prev.requests, ps[|ps| - 1], b, host)
  }

  /** What `cproxy_init_string` does with a topology string. */
  function InitStringOf(cfg: Option<string>, b: ProxyBehavior, host: Host): Startup
  {
    if cfg.None? || |cfg.value| == 0 then Startup([], Returned(0))
    else RunParsed(ParseSections(Split(cfg.value, ';')), b, host)
  }

  /**
   * Section `k` parses, and creating and listening on its proxy succeed once
   * the requests of sections `0..k` have been issued.
   */
  predicate SectionOk(ps: seq<Result<(int, string)>>, k: int, b: ProxyBehavior, host: Host)
    requires 0 <= k < |ps|
  {
    && ps[k].Ok?
    && host.create(RequestsOf(ps[..k + 1], b))
    && host.listen(RequestsOf(ps[..k + 1], b)) > 0
  }

  /**
   * `cproxy_init_string`: walk a copy of the string with `strsep` on ';' and,
   * for each section, create a proxy and make it listen; any failure
   * terminates the process.
   */
  method InitString(cfg: Option<string>, b: ProxyBehavior, host: Host) returns (r: Startup)
    ensures r == InitStringOf(cfg, b, host)
  {
    if cfg.None? || |cfg.value| == 0 {
      return Startup([], Returned(0));
    }
    var buff := cfg.value;
    var next: Option<nat> := Some(0);
    var requests: seq<ProxyRequest> := [];
    ghost var done: seq<string> := [];
    while next.Some?
      invariant next.Some? ==> next.value <= |buff|
      invariant Split(buff, ';') == done + Remaining(buff, next, ';')
      invariant RunParsed(ParseSections(done), b, host) == Startup(requests, Returned(0))
      decreases if next.Some? then |buff| - next.value + 1 else 0
    {
      var pos := next.value;
      var proxySect;
      proxySect, next := Strsep(buff, pos, ';');
      assert Remaining(buff, Some(pos), ';') == [proxySect] + Remaining(buff, next, ';');
      var step := OpenProxy(requests, proxySect, b, host);
      SectionLoopStep(buff, done, proxySect, Remaining(buff, next, ';'), b, host, requests);
      StepReturnsZero(requests, Section(proxySect), b, host);
      if step.end.Aborted? {
        return step;
      }
      requests := step.requests;
      done := done + [proxySect];
    }
    assert done == Split(buff, ';');
    return Startup(requests, Returned(0));
  }

  /**
   * The body of the loop in `cproxy_init_string` for one section: split it at
   * its first '=' with `strsep`, read the port with `atoi`, then create the
   * proxy and make it listen.
   */
  method OpenProxy(requests: seq<ProxyRequest>, proxySect: string, b: ProxyBehavior, host: Host)
    returns (r: Startup)
    ensures r == SectionStep(requests, Section(proxySect), b, host)
  {
    var proxyPortStr, rest := Strsep(proxySect, 0, '=');
    assert proxySect[0..] == proxySect;
    if rest.None? {
      return Startup(requests, Aborted(MissingEquals));
    }
    var spec := proxySect[rest.value..];
    var proxyPort := ParseLong(proxyPortStr);
    if proxyPort <= 0 {
      return Startup(requests, Aborted(BadProxyPort));
    }
    var issued := requests + [ProxyRequest(ProxyName, proxyPort, spec, 0, b)];
    var p := host.create(issued);
    if p {
      var n := host.listen(issued);
      if n > 0 {
        return Startup(issued, Returned(0));
      } else {
        return Startup(issued, Aborted(ListenFailed));
      }
    } else {
      return Startup(issued, Aborted(AllocFailed));
    }
  }

  /** The proof step of one iteration of the loop in `InitString`. */
  lemma SectionLoopStep(buff: string, done: seq<string>, sect: string, rest: seq<string>,
                        b: ProxyBehavior, host: Host, requests: seq<ProxyRequest>)
    requires Split(buff, ';') == done + ([sect] + rest)
    requires RunParsed(ParseSections(done), b, host) == Startup(requests, Returned(0))
    ensures Split(buff, ';') == (done + [sect]) + rest
    ensures RunParsed(ParseSections(done + [sect]), b, host) == SectionStep(requests, Section(sect), b, host)
    ensures SectionStep(requests, Section(sect), b, host).end.Aborted? ==>
      RunParsed(ParseSections(Split(buff, ';')), b, host) == SectionStep(requests, Section(sect), b, host)
  {
    assert done + ([sect] + rest) == (done + [sect]) + rest;
    ParseAppend(done, [sect]);
    assert ParseSections([sect]) == [Section(sect)];
    RunOneMore(ParseSections(done), Section(sect), b, host);
    if SectionStep(requests, Section(sect), b, host).end.Aborted? {
      ParseAppend(done + [sect], rest);
      AbortPersists(ParseSections(done + [sect]), ParseSections(rest), b, host);
    }
  }

  /** A section that succeeds lets the parser go on towards returning 0. */
  lemma StepReturnsZero(requests: seq<ProxyRequest>, p: Result<(int, string)>, b: ProxyBehavior, host: Host)
    ensures SectionStep(requests, p, b, host).end.Returned? ==>
      SectionStep(requests, p, b, host).end == Returned(0)
  {
  }

  /** A topology string of one section is that section's step from scratch. */
  lemma SingleSection(sect: string, b: ProxyBehavior, host: Host)
    requires |sect| > 0 && ';' !in sect
    ensures InitStringOf(Some(sect), b, host) == SectionStep([], Section(sect), b, host)
  {
    SplitJoin([sect], ';');
    assert ParseSections([sect]) == [Section(sect)];
    RunOneMore([], Section(sect), b, host);
    assert [] + [Section(sect)] == [Section(sect)];
  }

  /** Reading sections distributes over concatenation. */
  lemma {:induction false} ParseAppend(xs: seq<string>, ys: seq<string>)
    ensures ParseSections(xs + ys) == ParseSections(xs) + ParseSections(ys)
    decreases |ys|
  {
    if ys == [] {
      assert xs + ys == xs;
    } else {
      var ys' := ys[..|ys| - 1];
      assert (xs + ys)[..|xs + ys| - 1] == xs + ys';
      ParseAppend(xs, ys');
    }
  }

  /** Each section is read on its own. */
  lemma {:induction false} ParsedAt(secs: seq<string>, k: nat)
    requires k < |secs|
    ensures ParseSections(secs)[k] == Section(secs[k])
    decreases |secs|
  {
    if k < |secs| - 1 {
      ParsedAt(secs[..|secs| - 1], k);
    }
  }

  /** Handling one more parsed section. */
  lemma RunOneMore(ps: seq<Result<(int, string)>>, p: Result<(int, string)>, b: ProxyBehavior, host: Host)
    ensures RunParsed(ps + [p], b, host) ==
      var prev := RunParsed(ps, b, host);
      if prev.end.Aborted? then prev else SectionStep(prev.requests, p, b, host)
  {
    assert (ps + [p])[..|ps|] == ps;
  }

  /** Once a section has been fatal, later sections change nothing. */
  lemma {:induction false} AbortPersists(xs: seq<Result<(int, string)>>, ys: seq<Result<(int, string)>>,
                                         b: ProxyBehavior, host: Host)
    requires RunParsed(xs, b, host).end.Aborted?
    ensures RunParsed(xs + ys, b, host) == RunParsed(xs, b, host)
    decreases |ys|
  {
    if ys == [] {
      assert xs + ys == xs;
    } else {
      var ys' := ys[..|ys| - 1];
      assert xs + ys == (xs + ys') + [ys[|ys| - 1]];
      AbortPersists(xs, ys', b, host);
      RunOneMore(xs + ys', ys[|ys| - 1], b, host);
    }
  }

  /**
   * Whatever happens, the requests issued are the first few of those the
   * parsed sections ask for, in order; when the run returns, it returns 0
   * and has issued all of them.
   */
  lemma {:induction false} RunShape(ps: seq<Result<(int, string)>>, b: ProxyBehavior, host: Host)
    ensures |RunParsed(ps, b, host).requests| <= |RequestsOf(ps, b)|
    ensures RunParsed(ps, b, host).requests ==
      RequestsOf(ps, b)[..|RunParsed(ps, b, host).requests|]
    ensures RunParsed(ps, b, host).end.Returned? ==>
      RunParsed(ps, b, host) == Startup(RequestsOf(ps, b), Returned(0))
    decreases |ps|
  {
    if ps != [] {
      var init, last := ps[..|ps| - 1], ps[|ps| - 1];
      assert ps == init + [last];
      RunShape(init, b, host);
      RunOneMore(init, last, b, host);
      var prev := RunParsed(init, b, host);
      var all := RequestsOf(ps, b);
      var n := |prev.requests|;
      assert all[..n] == RequestsOf(init, b)[..n];
      if prev.end.Returned? && last.Ok? {
        assert all[..n + 1] == prev.requests + [RequestOf(last.value, b)];
      }
    }
  }

  /**
   * The parser returns 0 if and only if every section parses and its proxy
   * is created and listens; it then has issued exactly one request per
   * section, in order.
   */
  lemma {:induction false} SuccessIff(ps: seq<Result<(int, string)>>, b: ProxyBehavior, host: Host)
    ensures RunParsed(ps, b, host).end == Returned(0) <==>
      forall k | 0 <= k < |ps| :: SectionOk(ps, k, b, host)
    ensures RunParsed(ps, b, host).end == Returned(0) ==> RunParsed(ps, b, host).requests == RequestsOf(ps, b)
    decreases |ps|
  {
    RunShape(ps, b, host);
    if ps != [] {
      var init, last := ps[..|ps| - 1], ps[|ps| - 1];
      assert ps == init + [last];
      SuccessIff(init, b, host);
      RunOneMore(init, last, b, host);
      RunShape(init, b, host);
      forall k | 0 <= k < |init|
        ensures SectionOk(ps, k, b, host) == SectionOk(init, k, b, host)
      {
        assert ps[..k + 1] == init[..k + 1];
      }
      assert ps[..|init| + 1] == ps;
      var whole := RunParsed(ps, b, host).end == Returned(0);
      var each := forall k | 0 <= k < |ps| :: SectionOk(ps, k, b, host);
      assert each <==> (forall k | 0 <= k < |init| :: SectionOk(init, k, b, host)) && SectionOk(ps, |init|, b, host);
    }
  }

  /**
   * The first failing section decides the outcome: when sections `0..k-1`
   * succeed and section `k` does not, the process terminates for section
   * `k`'s reason, with the requests of sections `0..k` issued, section `k`'s
   * own included only when it parsed.
   */
  lemma FailureAt(ps: seq<Result<(int, string)>>, k: nat, b: ProxyBehavior, host: Host)
    requires k < |ps|
    requires forall j | 0 <= j < k :: SectionOk(ps, j, b, host)
    requires !SectionOk(ps, k, b, host)
    ensures RunParsed(ps, b, host).end.Aborted?
    ensures ps[k].Err? ==>
      RunParsed(ps, b, host) == Startup(RequestsOf(ps[..k], b), Aborted(ps[k].error))
    ensures ps[k].Ok? ==>
      RunParsed(ps, b, host) == Startup(RequestsOf(ps[..k + 1], b),
        Aborted(if !host.create(RequestsOf(ps[..k + 1], b)) then AllocFailed else ListenFailed))
  {
    var pre := ps[..k];
    forall j | 0 <= j < k
      ensures SectionOk(pre, j, b, host)
    {
      assert pre[..j + 1] == ps[..j + 1];
      assert SectionOk(ps, j, b, host);
    }
    SuccessIff(pre, b, host);
    RunOneMore(pre, ps[k], b, host);
    assert pre + [ps[k]] == ps[..k + 1];
    AbortPersists(ps[..k + 1], ps[k + 1..], b, host);
    assert ps[..k + 1] + ps[k + 1..] == ps;
  }

  /** A section that does not parse ends the run before its request is issued. */
  lemma {:induction false} BadSectionFatal(ps: seq<Result<(int, string)>>, k: nat, b: ProxyBehavior, host: Host)
    requires k < |ps|
    requires ps[k].Err?
    ensures RunParsed(ps, b, host).end.Aborted?
    ensures |RunParsed(ps, b, host).requests| <= k
    decreases |ps|
  {
    var init, last := ps[..|ps| - 1], ps[|ps| - 1];
    assert ps == init + [last];
    RunOneMore(init, last, b, host);
    if k < |init| {
      assert init[k] == ps[k];
      BadSectionFatal(init, k, b, host);
      AbortPersists(init, [last], b, host);
    } else {
      RunShape(init, b, host);
    }
  }

  /**
   * A section of a topology string without '=' is fatal, and neither it nor
   * any later section gets a create request.
   */
  lemma MissingEqualsFatal(cfg: string, k: nat, b: ProxyBehavior, host: Host)
    requires k < |Split(cfg, ';')|
    requires '=' !in Split(cfg, ';')[k]
    ensures |cfg| > 0 ==> InitStringOf(Some(cfg), b, host).end.Aborted?
    ensures |InitStringOf(Some(cfg), b, host).requests| <= k
  {
    var secs := Split(cfg, ';');
    ParsedAt(secs, k);
    MissingEqualsSection(secs[k]);
    BadSectionFatal(ParseSections(secs), k, b, host);
  }

  /**
   * How a section is read: the text before its first '=' is the port, read
   * as `atoi` reads it, and everything after it, further '=' and ',' included,
   * is the downstream spec. A port that is not positive is fatal.
   */
  lemma SectionOfParts(text: string, spec: string)
    requires '=' !in text
    ensures Section(text + "=" + spec) ==
      if ParseLong(text) > 0 then Ok((ParseLong(text), spec)) else Err(BadProxyPort)
  {
    var s := text + "=" + spec;
    assert s[|text|] == '=';
    assert forall k | 0 <= k < |text| :: s[k] == text[k] && text[k] in text;
    FirstIndexAt(s, '=', |text|);
    assert s[..|text|] == text;
    assert s[|text| + 1..] == spec;
  }

  /** A section without '=' is fatal. */
  lemma MissingEqualsSection(sect: string)
    requires '=' !in sect
    ensures Section(sect) == Err(MissingEquals)
  {
    assert forall k | 0 <= k < |sect| :: sect[k] in sect;
    FirstIndexAt(sect, '=', |sect|);
  }

  /** A section written as `%d=spec` for a positive port reads back as that port and spec. */
  lemma RenderedSection(port: int, spec: string)
    requires port > 0
    ensures Section(Render(port) + "=" + spec) == Ok((port, spec))
  {
    var text := Render(port);
    assert text == Digits(port);
    assert forall k | 0 <= k < |text| :: text[k] != '=' by {
      assert forall k | 0 <= k < |text| :: IsDigit(text[k]);
    }
    ParseRender(port, "");
    assert text + "" == text;
    SectionOfParts(text, spec);
  }

  /** A topology string that ends in ';' is fatal: the empty last section has no '='. */
  lemma TrailingSemicolonFatal(cfg: string, b: ProxyBehavior, host: Host)
    ensures InitStringOf(Some(cfg + ";"), b, host).end.Aborted?
    ensures |InitStringOf(Some(cfg + ";"), b, host).requests| < |Split(cfg + ";", ';')|
  {
    AppendSplit(cfg, "", ';');
    assert cfg + [';'] + "" == cfg + ";";
    var secs := Split(cfg + ";", ';');
    MissingEqualsFatal(cfg + ";", |secs| - 1, b, host);
  }

  /** Every request carries the name "default", config version 0 and the shared behavior. */
  lemma {:induction false} RequestsCarry(ps: seq<Result<(int, string)>>, b: ProxyBehavior)
    ensures forall k | 0 <= k < |RequestsOf(ps, b)| ::
      RequestsOf(ps, b)[k] ==
        ProxyRequest(ProxyName, RequestsOf(ps, b)[k].port, RequestsOf(ps, b)[k].config, 0, b)
    decreases |ps|
  {
    if ps != [] {
      RequestsCarry(ps[..|ps| - 1], b);
    }
  }

  /** Every parsed section is a proxy request once all sections parse. */
  lemma {:induction false} RequestsOfAllOk(ps: seq<Result<(int, string)>>, b: ProxyBehavior)
    requires forall k | 0 <= k < |ps| :: ps[k].Ok?
    ensures |RequestsOf(ps, b)| == |ps|
    ensures forall k | 0 <= k < |ps| :: RequestsOf(ps, b)[k] == RequestOf(ps[k].value, b)
    decreases |ps|
  {
    if ps != [] {
      var init := ps[..|ps| - 1];
      assert forall k | 0 <= k < |init| :: init[k] == ps[k];
      RequestsOfAllOk(init, b);
    }
  }

  /** The section `%d=spec` asking for a proxy on a port with a downstream spec. */
  function SectionText(e: (int, string)): string
  {
    Render(e.0) + "=" + e.1
  }

  /** The sections written out from their entries. */
  function SectionTexts(entries: seq<(int, string)>): (secs: seq<string>)
    ensures |secs| == |entries|
  {
    seq(|entries|, k requires 0 <= k < |entries| => SectionText(entries[k]))
  }

  /** A topology string written out from its entries, sections separated by ';'. */
  function TopologyText(entries: seq<(int, string)>): string
  {
    Join(SectionTexts(entries), ';')
  }

  /** A written section holds no ';' when its spec holds none. */
  lemma SectionTextHasNoSemicolon(e: (int, string))
    requires ';' !in e.1
    ensures ';' !in SectionText(e)
  {
    var digits := Render(e.0);
    var text := SectionText(e);
    assert forall j | 0 <= j < |digits| :: digits[j] != ';' by {
      if e.0 < 0 {
        assert digits == "-" + Digits(-e.0);
        assert forall j | 1 <= j < |digits| :: digits[j] == Digits(-e.0)[j - 1];
      } else {
        assert digits == Digits(e.0);
      }
    }
    forall j | 0 <= j < |text|
      ensures text[j] != ';'
    {
      if j < |digits| {
        assert text[j] == digits[j];
      } else if j > |digits| {
        assert text[j] == e.1[j - |digits| - 1];
      }
    }
  }

  /**
   * Writing a topology out and reading it back: for positive ports and
   * specs without ';', and collaborators that always succeed, the parser
   * returns 0 having issued exactly one request per entry, in order, each
   * with that entry's port and spec.
   */
  lemma TopologyRoundTrip(entries: seq<(int, string)>, b: ProxyBehavior, host: Host)
    requires |entries| >= 1
    requires forall k | 0 <= k < |entries| :: entries[k].0 > 0 && ';' !in entries[k].1
    requires forall rs :: host.create(rs) && host.listen(rs) > 0
    ensures InitStringOf(Some(TopologyText(entries)), b, host).end == Returned(0)
    ensures |InitStringOf(Some(TopologyText(entries)), b, host).requests| == |entries|
    ensures forall k | 0 <= k < |entries| ::
      InitStringOf(Some(TopologyText(entries)), b, host).requests[k] == RequestOf(entries[k], b)
  {
    var secs := SectionTexts(entries);
    TopologyTextSplits(entries);
    var ps := ParseSections(secs);
    SectionTextsParse(entries);
    RequestsOfAllOk(ps, b);
    HostAlwaysSucceeds(ps, b, host);
  }

  /** A written topology string is not empty and splits back into its sections. */
  lemma TopologyTextSplits(entries: seq<(int, string)>)
    requires |entries| >= 1
    requires forall k | 0 <= k < |entries| :: ';' !in entries[k].1
    ensures |TopologyText(entries)| > 0
    ensures Split(TopologyText(entries), ';') == SectionTexts(entries)
  {
    var secs := SectionTexts(entries);
    forall k | 0 <= k < |secs|
      ensures ';' !in secs[k]
    {
      SectionTextHasNoSemicolon(entries[k]);
    }
    SplitJoin(secs, ';');
    JoinStartsWithFirst(secs, ';');
  }

  /** Each written section reads back as its entry. */
  lemma SectionTextsParse(entries: seq<(int, string)>)
    requires forall k | 0 <= k < |entries| :: entries[k].0 > 0
    ensures forall k | 0 <= k < |entries| :: ParseSections(SectionTexts(entries))[k] == Ok(entries[k])
  {
    var secs := SectionTexts(entries);
    forall k | 0 <= k < |entries|
      ensures ParseSections(secs)[k] == Ok(entries[k])
    {
      ParsedAt(secs, k);
      RenderedSection(entries[k].0, entries[k].1);
    }
  }

  /** With collaborators that always succeed, only a section that does not parse can stop the run. */
  lemma HostAlwaysSucceeds(ps: seq<Result<(int, string)>>, b: ProxyBehavior, host: Host)
    requires forall k | 0 <= k < |ps| :: ps[k].Ok?
    requires forall rs :: host.create(rs) && host.listen(rs) > 0
    ensures RunParsed(ps, b, host) == Startup(RequestsOf(ps, b), Returned(0))
  {
    SuccessIff(ps, b, host);
    forall k | 0 <= k < |ps|
      ensures SectionOk(ps, k, b, host)
    {
      var rs := RequestsOf(ps[..k + 1], b);
      assert host.create(rs) && host.listen(rs) > 0;
    }
  }
}
