/**
 * The behavior string: comma-separated `key=value` overrides layered onto
 * hard-coded defaults (`cproxy_parse_behavior` in cproxy_config.c).
 */
module Behavior {
  import opened Outcomes
  import opened CStrings
  import opened CNumbers

  datatype Protocol = Ascii | Binary

  /** A `struct timeval`: whole seconds and a microsecond part. */
  datatype Timeval = Timeval(sec: int, usec: int)

  /** The `proxy_behavior` record every proxy of one startup shares. */
  datatype ProxyBehavior = ProxyBehavior(
    nthreads: int,
    downstreamMax: int,
    downstreamProt: Protocol,
    downstreamTimeout: Timeval,
    waitQueueTimeout: Timeval)

  /** The keys the parser acts on; any other key is ignored. */
  datatype Key = DownstreamMax | DownstreamProt | DownstreamTimeout | WaitQueueTimeout | UnknownKey

  /** Which key a token's text before '=' names, compared as `strcmp` does. */
  function KeyNamed(name: string): Key
  {
    if name == "downstream_max" then DownstreamMax
    else if name == "downstream_prot" then DownstreamProt
    else if name == "downstream_timeout" then DownstreamTimeout
    else if name == "wait_queue_timeout" then WaitQueueTimeout
    else UnknownKey
  }

  /** The protocol a `downstream_prot` value names exactly, if any. */
  function ProtocolNamed(val: string): Option<Protocol>
  {
    if val == "ascii" then Some(Ascii)
    else if val == "binary" then Some(Binary)
    else None
  }

  /** The record before any override: one downstream connection, ascii, no timeouts. */
  function Defaults(nthreads: int): ProxyBehavior
  {
    ProxyBehavior(nthreads, 1, Ascii, Timeval(0, 0), Timeval(0, 0))
  }

  /**
   * A timeout given in milliseconds as a `timeval`: the seconds are the floor
   * of `ms / 1000`, the microseconds come from C's truncating `ms % 1000`.
   * For a non-negative `ms` the two parts agree and hold exactly `ms`.
   */
  function MsToTimeval(ms: int): Timeval
  {
    Timeval(ms / 1000, TruncRem(ms, 1000) * 1000)
  }

  /**
   * The seconds are always the floor of `ms / 1000`; for a non-negative `ms`
   * the microseconds are a whole number of milliseconds below one second.
   */
  lemma TimevalOfMs(ms: int)
    ensures MsToTimeval(ms).sec * 1000 <= ms < MsToTimeval(ms).sec * 1000 + 1000
    ensures ms >= 0 ==> 0 <= MsToTimeval(ms).usec < 1000000 && MsToTimeval(ms).usec % 1000 == 0
  {
  }

  /**
   * The time a converted timeout holds: exactly `ms` when `ms` is not negative
   * or a whole number of seconds, and otherwise one second less, because the
   * floored seconds and the truncated remainder both round downwards.
   */
  lemma TimevalTotal(ms: int)
    ensures MsToTimeval(ms).sec * 1000000 + MsToTimeval(ms).usec ==
      (if ms >= 0 || ms % 1000 == 0 then ms else ms - 1000) * 1000
  {
    var q, r := ms / 1000, ms % 1000;
    assert ms == q * 1000 + r && 0 <= r < 1000;
    if ms < 0 && r != 0 {
      assert (-ms) == (-q - 1) * 1000 + (1000 - r);
      assert (-ms) % 1000 == 1000 - r;
    } else if ms < 0 {
      assert (-ms) == (-q) * 1000;
      assert (-ms) % 1000 == 0;
    }
  }

  /** A converted timeout holds exactly its milliseconds if and only if it is not a negative fraction of seconds. */
  lemma TimevalExactIff(ms: int)
    ensures MsToTimeval(ms).sec * 1000000 + MsToTimeval(ms).usec == ms * 1000
      <==> ms >= 0 || ms % 1000 == 0
  {
    TimevalTotal(ms);
  }

  /** The key and the value of a token, or `None` when it holds no '='. */
  function Setting(token: string): Option<(Key, string)>
  {
    var cut := Cut(token, '=');
    if cut.1.None? then None else Some((KeyNamed(cut.0), cut.1.value))
  }

  /**
   * How a token is read: the text before its first '=' names the key and
   * everything after it, further '=' included, is the value.
   */
  lemma SettingOfParts(name: string, val: string)
    requires '=' !in name
    ensures Setting(name + "=" + val) == Some((KeyNamed(name), val))
  {
    var t := name + "=" + val;
    assert t[|name|] == '=';
    assert forall k | 0 <= k < |name| :: t[k] == name[k] && name[k] in name;
    FirstIndexAt(t, '=', |name|);
    assert t[..|name|] == name;
    assert t[|name| + 1..] == val;
  }

  /** The effect of one `key=value` setting on the record. */
  function Apply(b: ProxyBehavior, key: Key, val: string): Result<ProxyBehavior>
  {
    match key
    case DownstreamMax =>
      var n := ParseLong(val);
      if n > 0 then Ok(b.(downstreamMax := n)) else Err(DownstreamMaxNotPositive)
    case DownstreamProt =>
      if ProtocolNamed(val).Some? then Ok(b.(downstreamProt := ProtocolNamed(val).value)) else Ok(b)
    case DownstreamTimeout => Ok(b.(downstreamTimeout := MsToTimeval(ParseLong(val))))
    case WaitQueueTimeout => Ok(b.(waitQueueTimeout := MsToTimeval(ParseLong(val))))
    case UnknownKey => Ok(b)
  }

  /** The effect of one token: a setting overrides one field, anything else is ignored. */
  function ApplyToken(b: ProxyBehavior, token: string): Result<ProxyBehavior>
  {
    var setting := Setting(token);
    if setting.None? then Ok(b) else Apply(b, setting.value.0, setting.value.1)
  }

  /** The tokens applied left to right; the first failed assertion ends it all. */
  function ApplyTokens(b: ProxyBehavior, tokens: seq<string>): Result<ProxyBehavior>
  {
    if tokens == [] then Ok(b)
    else
      match ApplyTokens(b, tokens[..|tokens| - 1])
      case Err(e) => Err(e)
      case Ok(b') => ApplyToken(b', tokens[|tokens| - 1])
  }

  /** A token that leaves any record as it is. */
  predicate Ignored(token: string)
  {
    var setting := Setting(token);
    || setting.None?
    || setting.value.0 == UnknownKey
    || (setting.value.0 == DownstreamProt && ProtocolNamed(setting.value.1).None?)
  }

  /** A `downstream_max` token whose value does not parse as a positive number. */
  predicate RejectsMax(token: string)
  {
    var setting := Setting(token);
    setting.Some? && setting.value.0 == DownstreamMax && ParseLong(setting.value.1) <= 0
  }

  /** The value of the last setting of `key` among the tokens. */
  function LastValue(tokens: seq<string>, key: Key): Option<string>
  {
    if tokens == [] then None
    else
      var setting := Setting(tokens[|tokens| - 1]);
      if setting.Some? && setting.value.0 == key then Some(setting.value.1)
      else LastValue(tokens[..|tokens| - 1], key)
  }

  /** The protocol of the last `downstream_prot` setting that names a known protocol. */
  function LastProtocol(tokens: seq<string>): Option<Protocol>
  {
    if tokens == [] then None
    else
      var setting := Setting(tokens[|tokens| - 1]);
      if setting.Some? && setting.value.0 == DownstreamProt && ProtocolNamed(setting.value.1).Some? then
        ProtocolNamed(setting.value.1)
      else LastProtocol(tokens[..|tokens| - 1])
  }

  /** What parsing the behavior string yields: the record, or the failed assertion. */
  function BehaviorOf(behaviorStr: Option<string>, nthreads: int): (r: Result<ProxyBehavior>)
    ensures r.Ok? ==> r.value.nthreads == nthreads && r.value.downstreamMax > 0
  {
    if behaviorStr.None? || |behaviorStr.value| == 0 then Ok(Defaults(nthreads))
    else
      var tokens := Split(behaviorStr.value, ',');
      MaxStaysPositive(Defaults(nthreads), tokens);
      ThreadsUnchanged(Defaults(nthreads), tokens);
      ApplyTokens(Defaults(nthreads), tokens)
  }

  /**
   * `cproxy_parse_behavior`: start from the defaults, then walk the buffer
   * with `strsep` on ',' and apply each `key=value` token in turn. The
   * assertions on the thread count are the caller's obligations.
   */
  method ParseBehavior(behaviorStr: Option<string>, nthreads: int, numThreads: int)
    returns (r: Result<ProxyBehavior>)
    requires nthreads > 1
    requires nthreads == numThreads
    ensures r == BehaviorOf(behaviorStr, nthreads)
  {
    var behavior := Defaults(nthreads);
    if behaviorStr.None? || |behaviorStr.value| == 0 {
      return Ok(behavior);
    }
    var buff := behaviorStr.value;
    var next: Option<nat> := Some(0);
    ghost var done: seq<string> := [];
    while next.Some?
      invariant next.Some? ==> next.value <= |buff|
      invariant Split(buff, ',') == done + Remaining(buff, next, ',')
      invariant ApplyTokens(Defaults(nthreads), done) == Ok(behavior)
      decreases if next.Some? then |buff| - next.value + 1 else 0
    {
      var keyVal;
      var pos := next.value;
      keyVal, next := Strsep(buff, pos, ',');
      assert Remaining(buff, Some(pos), ',') == [keyVal] + Remaining(buff, next, ',');
      var step := Override(behavior, keyVal);
      TokenStep(Defaults(nthreads), buff, done, keyVal, Remaining(buff, next, ','), behavior);
      if step.Err? {
        return step;
      }
      behavior := step.value;
      done := done + [keyVal];
    }
    assert done == Split(buff, ',');
    return Ok(behavior);
  }

  /**
   * The body of the loop in `cproxy_parse_behavior` for one token: split it
   * at its first '=' with `strsep` and, for a known key, override that field.
   * A failed `downstream_max > 0` assertion is the error result.
   */
  method Override(behavior: ProxyBehavior, keyVal: string) returns (r: Result<ProxyBehavior>)
    ensures r == ApplyToken(behavior, keyVal)
  {
    var key, rest := Strsep(keyVal, 0, '=');
    assert keyVal[0..] == keyVal;
    if rest.None? {
      return Ok(behavior);
    }
    var val := keyVal[rest.value..];
    assert Setting(keyVal) == Some((KeyNamed(key), val));
    r := Assign(behavior, key, val);
  }

  /**
   * The `strcmp` chain of `cproxy_parse_behavior`: the field `key` names
   * takes the value `val`; an unknown key or protocol changes nothing.
   */
  method Assign(behavior: ProxyBehavior, key: string, val: string) returns (r: Result<ProxyBehavior>)
    ensures r == Apply(behavior, KeyNamed(key), val)
  {
    var b := behavior;
    if key == "downstream_max" {
      assert KeyNamed(key) == DownstreamMax;
      b := b.(downstreamMax := ParseLong(val));
      if b.downstreamMax <= 0 {
        return Err(DownstreamMaxNotPositive);
      }
    } else if key == "downstream_prot" {
      assert KeyNamed(key) == DownstreamProt;
      if val == "ascii" {
        b := b.(downstreamProt := Ascii);
      } else if val == "binary" {
        b := b.(downstreamProt := Binary);
      }
    } else if key == "downstream_timeout" {
      assert KeyNamed(key) == DownstreamTimeout;
      var ms := ParseLong(val);
      b := b.(downstreamTimeout := MsToTimeval(ms));
    } else if key == "wait_queue_timeout" {
      assert KeyNamed(key) == WaitQueueTimeout;
      var ms := ParseLong(val);
      b := b.(waitQueueTimeout := MsToTimeval(ms));
    } else {
      assert KeyNamed(key) == UnknownKey;
    }
    return Ok(b);
  }

  /** A behavior string of one token is that token applied to the defaults. */
  lemma SingleToken(t: string, nthreads: int)
    requires |t| > 0 && ',' !in t
    ensures BehaviorOf(Some(t), nthreads) == ApplyToken(Defaults(nthreads), t)
  {
    SplitJoin([t], ',');
    ApplyOneMore(Defaults(nthreads), [], t);
    assert [] + [t] == [t];
  }

  /** The proof step of one iteration of the loop in `ParseBehavior`. */
  lemma TokenStep(d: ProxyBehavior, buff: string, done: seq<string>, t: string, rest: seq<string>,
                  b: ProxyBehavior)
    requires Split(buff, ',') == done + ([t] + rest)
    requires ApplyTokens(d, done) == Ok(b)
    ensures Split(buff, ',') == (done + [t]) + rest
    ensures ApplyTokens(d, done + [t]) == ApplyToken(b, t)
    ensures ApplyToken(b, t).Err? ==> ApplyTokens(d, Split(buff, ',')) == ApplyToken(b, t)
  {
    assert done + ([t] + rest) == (done + [t]) + rest;
    ApplyOneMore(d, done, t);
    if ApplyTokens(d, done + [t]).Err? {
      ErrPersists(d, done + [t], rest);
    }
  }

  /** Applying one more token to a sequence that has not failed yet. */
  lemma ApplyOneMore(b: ProxyBehavior, tokens: seq<string>, t: string)
    ensures ApplyTokens(b, tokens + [t]) ==
      match ApplyTokens(b, tokens)
      case Err(e) => Err(e)
      case Ok(b') => ApplyToken(b', t)
  {
    assert (tokens + [t])[..|tokens|] == tokens;
  }

  /** Once an assertion has failed, later tokens change nothing. */
  lemma {:induction false} ErrPersists(b: ProxyBehavior, xs: seq<string>, ys: seq<string>)
    requires ApplyTokens(b, xs).Err?
    ensures ApplyTokens(b, xs + ys) == ApplyTokens(b, xs)
    decreases |ys|
  {
    if ys == [] {
      assert xs + ys == xs;
    } else {
      var ys' := ys[..|ys| - 1];
      assert (xs + ys)[..|xs + ys| - 1] == xs + ys';
      ErrPersists(b, xs, ys');
    }
  }

  /** The empty and the absent string give the defaults, as splitting "" would too. */
  lemma EmptyGivesDefaults(nthreads: int)
    ensures BehaviorOf(None, nthreads) == Ok(Defaults(nthreads))
    ensures BehaviorOf(Some(""), nthreads) == Ok(Defaults(nthreads))
    ensures ApplyTokens(Defaults(nthreads), Split("", ',')) == Ok(Defaults(nthreads))
  {
    assert Split("", ',') == [""];
  }

  lemma IgnoredTokenKeepsRecord(b: ProxyBehavior, token: string)
    requires Ignored(token)
    ensures ApplyToken(b, token) == Ok(b)
  {
  }

  /** An ignored token can be dropped from anywhere in the sequence. */
  lemma {:induction false} IgnoredTokenDropsOut(b: ProxyBehavior, xs: seq<string>, t: string, ys: seq<string>)
    requires Ignored(t)
    ensures ApplyTokens(b, xs + [t] + ys) == ApplyTokens(b, xs + ys)
    decreases |ys|
  {
    if ys == [] {
      assert (xs + [t] + ys)[..|xs|] == xs;
      assert xs + ys == xs;
      IgnoredTokenKeepsRecord(if ApplyTokens(b, xs).Ok? then ApplyTokens(b, xs).value else b, t);
    } else {
      var ys' := ys[..|ys| - 1];
      assert (xs + [t] + ys)[..|xs + [t] + ys| - 1] == xs + [t] + ys';
      assert (xs + ys)[..|xs + ys| - 1] == xs + ys';
      assert (xs + [t] + ys)[|xs + [t] + ys| - 1] == (xs + ys)[|xs + ys| - 1];
      IgnoredTokenDropsOut(b, xs, t, ys');
    }
  }

  /** Tokens without '=', with unknown keys or with unknown protocols leave the record unchanged. */
  lemma {:induction false} IgnoredTokensKeepRecord(b: ProxyBehavior, tokens: seq<string>)
    requires forall k | 0 <= k < |tokens| :: Ignored(tokens[k])
    ensures ApplyTokens(b, tokens) == Ok(b)
    decreases |tokens|
  {
    if tokens != [] {
      IgnoredTokensKeepRecord(b, tokens[..|tokens| - 1]);
      IgnoredTokenKeepsRecord(b, tokens[|tokens| - 1]);
    }
  }

  /** What one token does to each field of the record. */
  lemma TokenEffect(b: ProxyBehavior, t: string)
    ensures ApplyToken(b, t).Err? <==> RejectsMax(t)
    ensures ApplyToken(b, t).Err? ==> ApplyToken(b, t).error == DownstreamMaxNotPositive
    ensures ApplyToken(b, t).Ok? ==>
      var r, s := ApplyToken(b, t).value, Setting(t);
      && r.nthreads == b.nthreads
      && r.downstreamMax ==
           (if s.Some? && s.value.0 == DownstreamMax then ParseLong(s.value.1) else b.downstreamMax)
      && r.downstreamProt ==
           (if s.Some? && s.value.0 == DownstreamProt && ProtocolNamed(s.value.1).Some?
            then ProtocolNamed(s.value.1).value else b.downstreamProt)
      && r.downstreamTimeout ==
           (if s.Some? && s.value.0 == DownstreamTimeout then MsToTimeval(ParseLong(s.value.1))
            else b.downstreamTimeout)
      && r.waitQueueTimeout ==
           (if s.Some? && s.value.0 == WaitQueueTimeout then MsToTimeval(ParseLong(s.value.1))
            else b.waitQueueTimeout)
  {
    var s := Setting(t);
    if s.Some? {
      match s.value.0
      case DownstreamMax =>
      case DownstreamProt =>
      case DownstreamTimeout =>
      case WaitQueueTimeout =>
      case UnknownKey =>
    }
  }

  /** One token fails exactly when it sets a non-positive limit. */
  lemma TokenFailure(b: ProxyBehavior, t: string)
    ensures ApplyToken(b, t).Err? <==> RejectsMax(t)
    ensures ApplyToken(b, t).Err? ==> ApplyToken(b, t).error == DownstreamMaxNotPositive
  {
    TokenEffect(b, t);
  }

  /** One token keeps a positive limit positive. */
  lemma TokenKeepsMaxPositive(b: ProxyBehavior, t: string)
    requires b.downstreamMax > 0
    ensures ApplyToken(b, t).Ok? ==> ApplyToken(b, t).value.downstreamMax > 0
  {
    TokenEffect(b, t);
  }

  /** One token never changes the thread count. */
  lemma TokenKeepsThreads(b: ProxyBehavior, t: string)
    ensures ApplyToken(b, t).Ok? ==> ApplyToken(b, t).value.nthreads == b.nthreads
  {
    TokenEffect(b, t);
  }

  /** Parsing fails exactly when some `downstream_max` value is not positive. */
  lemma {:induction false} AbortIff(b: ProxyBehavior, tokens: seq<string>)
    ensures ApplyTokens(b, tokens).Err? <==> exists k | 0 <= k < |tokens| :: RejectsMax(tokens[k])
    decreases |tokens|
  {
    if tokens != [] {
      var init, last := tokens[..|tokens| - 1], tokens[|tokens| - 1];
      assert tokens == init + [last];
      AbortIff(b, init);
      ApplyOneMore(b, init, last);
      if ApplyTokens(b, init).Ok? {
        TokenFailure(ApplyTokens(b, init).value, last);
      }
      if exists k | 0 <= k < |init| :: RejectsMax(init[k]) {
        var k :| 0 <= k < |init| && RejectsMax(init[k]);
        assert tokens[k] == init[k];
      } else if !RejectsMax(last) {
        forall k | 0 <= k < |tokens|
          ensures !RejectsMax(tokens[k])
        {
          if k < |init| {
            assert tokens[k] == init[k];
          }
        }
      }
    }
  }

  /** The only way parsing fails is the `downstream_max > 0` assertion. */
  lemma {:induction false} OnlyMaxAborts(b: ProxyBehavior, tokens: seq<string>)
    ensures ApplyTokens(b, tokens).Err? ==> ApplyTokens(b, tokens).error == DownstreamMaxNotPositive
    decreases |tokens|
  {
    if tokens != [] {
      var init, last := tokens[..|tokens| - 1], tokens[|tokens| - 1];
      OnlyMaxAborts(b, init);
      ApplyOneMore(b, init, last);
      assert tokens == init + [last];
      if ApplyTokens(b, init).Ok? {
        TokenFailure(ApplyTokens(b, init).value, last);
      }
    }
  }

  /** Every record the tokens leave has a positive connection limit. */
  predicate MaxPositive(b: ProxyBehavior, tokens: seq<string>)
  {
    ApplyTokens(b, tokens).Ok? ==> ApplyTokens(b, tokens).value.downstreamMax > 0
  }

  lemma MaxPositiveStep(b: ProxyBehavior, init: seq<string>, last: string)
    requires MaxPositive(b, init)
    ensures MaxPositive(b, init + [last])
  {
    ApplyOneMore(b, init, last);
    if ApplyTokens(b, init).Ok? {
      TokenKeepsMaxPositive(ApplyTokens(b, init).value, last);
    }
  }

  /** A positive connection limit stays positive whatever tokens are applied. */
  lemma {:induction false} MaxStaysPositive(b: ProxyBehavior, tokens: seq<string>)
    requires b.downstreamMax > 0
    ensures MaxPositive(b, tokens)
    decreases |tokens|
  {
    if tokens != [] {
      var init, last := tokens[..|tokens| - 1], tokens[|tokens| - 1];
      assert tokens == init + [last];
      MaxStaysPositive(b, init);
      MaxPositiveStep(b, init, last);
    }
  }

  /** Every record the tokens leave has the thread count they started from. */
  predicate ThreadsKept(b: ProxyBehavior, tokens: seq<string>)
  {
    ApplyTokens(b, tokens).Ok? ==> ApplyTokens(b, tokens).value.nthreads == b.nthreads
  }

  lemma ThreadsStep(b: ProxyBehavior, init: seq<string>, last: string)
    requires ThreadsKept(b, init)
    ensures ThreadsKept(b, init + [last])
  {
    ApplyOneMore(b, init, last);
    if ApplyTokens(b, init).Ok? {
      TokenKeepsThreads(ApplyTokens(b, init).value, last);
    }
  }

  /** No token changes the thread count. */
  lemma {:induction false} ThreadsUnchanged(b: ProxyBehavior, tokens: seq<string>)
    ensures ThreadsKept(b, tokens)
    decreases |tokens|
  {
    if tokens != [] {
      var init, last := tokens[..|tokens| - 1], tokens[|tokens| - 1];
      assert tokens == init + [last];
      ThreadsUnchanged(b, init);
      ThreadsStep(b, init, last);
    }
  }

  /** The last setting of `key` after one more token. */
  lemma LastValueStep(init: seq<string>, t: string, key: Key)
    ensures LastValue(init + [t], key) ==
      (if Setting(t).Some? && Setting(t).value.0 == key then Some(Setting(t).value.1)
       else LastValue(init, key))
  {
    assert (init + [t])[..|init|] == init;
  }

  /** The limit a sequence of tokens leaves in `downstreamMax`. */
  predicate MaxIsLast(b: ProxyBehavior, tokens: seq<string>)
  {
    ApplyTokens(b, tokens).Ok? ==>
      ApplyTokens(b, tokens).value.downstreamMax ==
        match LastValue(tokens, DownstreamMax)
        case None => b.downstreamMax
        case Some(v) => ParseLong(v)
  }

  lemma MaxStep(b: ProxyBehavior, init: seq<string>, last: string)
    requires MaxIsLast(b, init)
    ensures MaxIsLast(b, init + [last])
  {
    ApplyOneMore(b, init, last);
    LastValueStep(init, last, DownstreamMax);
    if ApplyTokens(b, init).Ok? {
      TokenEffect(ApplyTokens(b, init).value, last);
    }
  }

  lemma {:induction false} LastMaxWins(b: ProxyBehavior, tokens: seq<string>)
    ensures MaxIsLast(b, tokens)
    decreases |tokens|
  {
    if tokens != [] {
      var init, last := tokens[..|tokens| - 1], tokens[|tokens| - 1];
      assert tokens == init + [last];
      LastMaxWins(b, init);
      MaxStep(b, init, last);
    }
  }


  /** The protocol a sequence of tokens leaves in `downstreamProt`. */
  predicate ProtocolIsLast(b: ProxyBehavior, tokens: seq<string>)
  {
    ApplyTokens(b, tokens).Ok? ==>
      ApplyTokens(b, tokens).value.downstreamProt ==
        match LastProtocol(tokens)
        case None => b.downstreamProt
        case Some(p) => p
  }

  lemma ProtocolStep(b: ProxyBehavior, init: seq<string>, last: string)
    requires ProtocolIsLast(b, init)
    ensures ProtocolIsLast(b, init + [last])
  {
    ApplyOneMore(b, init, last);
    assert (init + [last])[..|init|] == init;
    if ApplyTokens(b, init).Ok? {
      TokenEffect(ApplyTokens(b, init).value, last);
    }
  }

  lemma {:induction false} LastProtocolWins(b: ProxyBehavior, tokens: seq<string>)
    ensures ProtocolIsLast(b, tokens)
    decreases |tokens|
  {
    if tokens != [] {
      var init, last := tokens[..|tokens| - 1], tokens[|tokens| - 1];
      assert tokens == init + [last];
      LastProtocolWins(b, init);
      ProtocolStep(b, init, last);
    }
  }


  /** The timeout a sequence of tokens leaves in `downstreamTimeout`. */
  predicate DownstreamTimeoutIsLast(b: ProxyBehavior, tokens: seq<string>)
  {
    ApplyTokens(b, tokens).Ok? ==>
      ApplyTokens(b, tokens).value.downstreamTimeout ==
        match LastValue(tokens, DownstreamTimeout)
        case None => b.downstreamTimeout
        case Some(v) => MsToTimeval(ParseLong(v))
  }

  lemma DownstreamTimeoutStep(b: ProxyBehavior, init: seq<string>, last: string)
    requires DownstreamTimeoutIsLast(b, init)
    ensures DownstreamTimeoutIsLast(b, init + [last])
  {
    ApplyOneMore(b, init, last);
    LastValueStep(init, last, DownstreamTimeout);
    if ApplyTokens(b, init).Ok? {
      TokenEffect(ApplyTokens(b, init).value, last);
    }
  }

  lemma {:induction false} LastDownstreamTimeoutWins(b: ProxyBehavior, tokens: seq<string>)
    ensures DownstreamTimeoutIsLast(b, tokens)
    decreases |tokens|
  {
    if tokens != [] {
      var init, last := tokens[..|tokens| - 1], tokens[|tokens| - 1];
      assert tokens == init + [last];
      LastDownstreamTimeoutWins(b, init);
      DownstreamTimeoutStep(b, init, last);
    }
  }


  /** The timeout a sequence of tokens leaves in `waitQueueTimeout`. */
  predicate WaitQueueTimeoutIsLast(b: ProxyBehavior, tokens: seq<string>)
  {
    ApplyTokens(b, tokens).Ok? ==>
      ApplyTokens(b, tokens).value.waitQueueTimeout ==
        match LastValue(tokens, WaitQueueTimeout)
        case None => b.waitQueueTimeout
        case Some(v) => MsToTimeval(ParseLong(v))
  }

  lemma WaitQueueTimeoutStep(b: ProxyBehavior, init: seq<string>, last: string)
    requires WaitQueueTimeoutIsLast(b, init)
    ensures WaitQueueTimeoutIsLast(b, init + [last])
  {
    ApplyOneMore(b, init, last);
    LastValueStep(init, last, WaitQueueTimeout);
    if ApplyTokens(b, init).Ok? {
      TokenEffect(ApplyTokens(b, init).value, last);
    }
  }

  lemma {:induction false} LastWaitQueueTimeoutWins(b: ProxyBehavior, tokens: seq<string>)
    ensures WaitQueueTimeoutIsLast(b, tokens)
    decreases |tokens|
  {
    if tokens != [] {
      var init, last := tokens[..|tokens| - 1], tokens[|tokens| - 1];
      assert tokens == init + [last];
      LastWaitQueueTimeoutWins(b, init);
      WaitQueueTimeoutStep(b, init, last);
    }
  }


  /**
   * When a key repeats, its last occurrence wins: each field of the result is
   * set by the last token for it, or keeps its starting value when there is
   * none; the thread count never changes.
   */
  lemma LastOccurrenceWins(b: ProxyBehavior, tokens: seq<string>)
    ensures ApplyTokens(b, tokens).Ok? ==>
      var r := ApplyTokens(b, tokens).value;
      && r.nthreads == b.nthreads
      && r.downstreamMax == (match LastValue(tokens, DownstreamMax)
                             case None => b.downstreamMax
                             case Some(v) => ParseLong(v))
      && r.downstreamProt == (match LastProtocol(tokens)
                              case None => b.downstreamProt
                              case Some(p) => p)
      && r.downstreamTimeout == (match LastValue(tokens, DownstreamTimeout)
                                 case None => b.downstreamTimeout
                                 case Some(v) => MsToTimeval(ParseLong(v)))
      && r.waitQueueTimeout == (match LastValue(tokens, WaitQueueTimeout)
                                case None => b.waitQueueTimeout
                                case Some(v) => MsToTimeval(ParseLong(v)))
  {
    ThreadsUnchanged(b, tokens);
    LastMaxWins(b, tokens);
    LastProtocolWins(b, tokens);
    LastDownstreamTimeoutWins(b, tokens);
    LastWaitQueueTimeoutWins(b, tokens);
  }

  /**
   * At the level of the string: one more `,token` at the end applies that
   * token to whatever the string before it gave.
   */
  lemma AppendedTokenApplies(s: string, t: string, nthreads: int)
    requires |s| > 0 && ',' !in t
    ensures BehaviorOf(Some(s + "," + t), nthreads) ==
      match BehaviorOf(Some(s), nthreads)
      case Err(e) => Err(e)
      case Ok(b) => ApplyToken(b, t)
  {
    AppendSplit(s, t, ',');
    var xs := Split(s, ',');
    assert (xs + [t])[..|xs|] == xs;
  }
}
