# moxi proxy configuration, modelled in Dafny

This project models how moxi, a memcached proxy, reads its startup
configuration (`cproxy_config.c`). There are two strings:

- The **behavior string** is a comma-separated list of `key=value` overrides
  (`downstream_max`, `downstream_prot`, `downstream_timeout`,
  `wait_queue_timeout`). They are layered onto hard-coded defaults to form
  the `proxy_behavior` record that every proxy shares.
- The **topology string** is a semicolon-separated list of
  `port=downstreams` sections. Each section asks for a proxy named
  `"default"` listening on that port. The proxy is created and then made to
  listen, and any malformed section or failure ends the process.

`cproxy_init` ties the two together. It does nothing for an empty
configuration. Otherwise it parses the behavior string and hands the
configuration to the topology parser, unless the configuration names an
agent (`name@host`). Without the agent built in, that case returns 1.

The files:

- `outcomes.dfy`: `Option`, `Result`, the fatal configuration errors, and
  `Termination` (returned with a code, or aborted with a cause).
- `cstrings.dfy`: `strsep` as a scanning method. Its specification functions
  are `Split` (every token a run of `strsep` calls yields) and `Cut` (one call
  on a token). `Join` is the inverse of `Split`.
- `cnumbers.dfy`: `strtol(s, NULL, 10)` / `atoi` as a prefix parser, `%d`
  rendering as its inverse, and C's truncating `%`.
- `behavior.dfy`: `cproxy_parse_behavior`. The method walks the buffer with
  `strsep` and is proved equal to a left-to-right fold of the tokens over
  the defaults.
- `topology.dfy`: `cproxy_init_string`. The method walks the buffer with
  `strsep` and is proved equal to the parsed sections run left to right.
  `cproxy_create` and `cproxy_listen` are a `Host` parameter: two functions
  of the sequence of create requests issued so far.
- `dispatch.dfy`: `cproxy_init`.

A failed C `assert` and `exit(EXIT_FAILURE)` both end the process. In the
model they are an `Err`/`Aborted` value naming the cause, so every error
path is an ordinary result.

## Model

| member | source | states |
|---|---|---|
| CStrings.Strsep | cproxy_config.c:142-144 | one `strsep` call on a non-NULL cursor returns the text up to the first delimiter and moves the cursor just past it, or to NULL when none is left; the token is the head of the split of the rest, and the new cursor leaves exactly the tail |
| CStrings.JoinSplit | cproxy_config.c:141-142 | the tokens that repeated `strsep` calls yield, glued back with the delimiter, give the original buffer: no character is lost or invented |
| CStrings.SplitJoin | cproxy_config.c:71-72 | delimiter-free tokens joined by the delimiter are split back into exactly those tokens |
| CStrings.SplitCount | cproxy_config.c:71-72 | a buffer yields exactly one more token than it holds delimiters, so empty sections and trailing delimiters each count |
| CStrings.AppendSplit | cproxy_config.c:141-142 | appending a delimiter and a delimiter-free token appends exactly that one token to the split |
| CStrings.JoinStartsWithFirst | cproxy_config.c:72 | the first token is a prefix of the buffer it was cut from |
| CNumbers.ParseRender | cproxy_config.c:79 | `atoi`/`strtol` read back what `%d` writes for every integer, whatever non-digit text follows |
| CNumbers.ParseDigits | cproxy_config.c:150 | decimal digits followed by a non-digit read as their value |
| CNumbers.ParseNegatedDigits | cproxy_config.c:163 | a minus sign and digits read as the negated value |
| CNumbers.NonzeroNeedsDigit | cproxy_config.c:79-80 | text without a decimal digit, the empty text among it, reads as 0, so such a port is rejected |
| CNumbers.DigitsValueOfDigits | cproxy_config.c:79 | the value of a number's decimal digits is the number |
| CNumbers.TruncDivision | cproxy_config.c:165 | C's `%` with a positive divisor: the remainder is smaller than the divisor in size, has the sign of the dividend, and goes with the truncated quotient |
| Behavior.ParseBehavior | cproxy_config.c:111-182 | the parser with its `strsep` loop returns exactly the fold of all tokens over the defaults, or the defaults for an absent or empty string, or the failed `downstream_max` assertion |
| Behavior.Override | cproxy_config.c:142-148 | one token is cut at its first '='; a token without '=' changes nothing, otherwise the key before it and the value after it are applied |
| Behavior.Assign | cproxy_config.c:149-172 | the `strcmp` chain sets exactly the field the key names: a positive limit or the assertion failure, a known protocol or nothing, a timeout from its milliseconds; unknown keys change nothing |
| Behavior.BehaviorOf | cproxy_config.c:116-134 | any record the parser returns keeps the caller's thread count and has a positive connection limit |
| Behavior.EmptyGivesDefaults | cproxy_config.c:116-134 | an absent or empty behavior string gives the defaults: one downstream connection, ascii, both timeouts zero |
| Behavior.SingleToken | cproxy_config.c:141-175 | a string with no ',' is one token applied to the defaults |
| Behavior.AppendedTokenApplies | cproxy_config.c:141-175 | appending `,token` applies that token to the record the shorter string gives, and an earlier failure stays |
| Behavior.SettingOfParts | cproxy_config.c:144-145 | a token splits at its first '=': the key is the text before it and the value is all the rest, later '=' included |
| Behavior.TokenEffect | cproxy_config.c:147-172 | one token fails exactly when it sets a non-positive `downstream_max`; otherwise it sets only the field its key names and keeps all the others |
| Behavior.AbortIff | cproxy_config.c:149-151 | parsing fails if and only if some token sets `downstream_max` to a value that is not positive |
| Behavior.OnlyMaxAborts | cproxy_config.c:151 | the only failure parsing can report is the `downstream_max > 0` assertion |
| Behavior.MaxStaysPositive | cproxy_config.c:149-151 | starting from a positive limit, every record the tokens leave has a positive limit |
| Behavior.ThreadsUnchanged | cproxy_config.c:119 | no token changes the thread count |
| Behavior.ErrPersists | cproxy_config.c:151 | after a failed assertion, later tokens change nothing |
| Behavior.LastMaxWins | cproxy_config.c:149-151 | the connection limit is the one the last `downstream_max` token sets, or the starting one |
| Behavior.LastProtocolWins | cproxy_config.c:152-161 | the protocol is the one the last `downstream_prot` token naming `ascii` or `binary` sets, or the starting one |
| Behavior.LastDownstreamTimeoutWins | cproxy_config.c:162-165 | the downstream timeout comes from the last `downstream_timeout` token, or is the starting one |
| Behavior.LastWaitQueueTimeoutWins | cproxy_config.c:166-169 | the wait-queue timeout comes from the last `wait_queue_timeout` token, or is the starting one |
| Behavior.LastOccurrenceWins | cproxy_config.c:141-175 | every field of the result is the starting value overridden by the last token that sets it, and the thread count never changes |
| Behavior.IgnoredTokenKeepsRecord | cproxy_config.c:143-172 | a token without '=', with an unknown key or naming an unknown protocol leaves the record as it is |
| Behavior.IgnoredTokenDropsOut | cproxy_config.c:152-172 | removing an ignored token from anywhere in the list does not change the result |
| Behavior.IgnoredTokensKeepRecord | cproxy_config.c:170-172 | a list of ignored tokens only returns the record it started from |
| Behavior.TimevalOfMs | cproxy_config.c:163-165 | the seconds are the floor of ms/1000; for a non-negative ms the microseconds are a whole number of milliseconds below one second |
| Behavior.TimevalTotal | cproxy_config.c:163-169 | a converted timeout holds exactly ms milliseconds when ms is not negative or is whole seconds, and one second less otherwise |
| Behavior.TimevalExactIff | cproxy_config.c:164-165 | a converted timeout is exact if and only if ms is not negative or is whole seconds |
| Topology.InitString | cproxy_config.c:51-109 | the topology parser with its `strsep` loop returns exactly what running the parsed sections in order gives: the requests issued and how it ended; an absent or empty string returns 0 at once |
| Topology.OpenProxy | cproxy_config.c:74-104 | one section: no '=' is fatal, a port that is not positive is fatal, otherwise the request is issued, and a NULL proxy or a listen count that is not positive is fatal |
| Topology.RunShape | cproxy_config.c:71-108 | the requests issued are a prefix of those of the well-formed sections, in order, and returning means all of them were issued and the code is 0 |
| Topology.SuccessIff | cproxy_config.c:71-108 | startup returns 0 if and only if every section parses and its proxy is created and listens; then the requests are exactly those of all the sections |
| Topology.FailureAt | cproxy_config.c:75-104 | the first section that fails ends startup with its cause, after exactly the requests of the sections before it, plus its own when it parsed |
| Topology.AbortPersists | cproxy_config.c:75-104 | after a fatal section, later sections change nothing |
| Topology.BadSectionFatal | cproxy_config.c:75-83 | a malformed section is fatal, and no request is issued for it or for any later section |
| Topology.MissingEqualsFatal | cproxy_config.c:74-78 | a section of the string without '=' ends startup before its request |
| Topology.MissingEqualsSection | cproxy_config.c:74-78 | a section without '=' is the "missing =" error |
| Topology.SectionOfParts | cproxy_config.c:74-83 | a section is cut at its first '=': the port is read from the text before it, and the downstream spec is all the rest, later '=' included; a port that is not positive is the "bad proxy port" error |
| Topology.RenderedSection | cproxy_config.c:74-83 | a positive port written in decimal, '=' and a spec read back as that port and that spec |
| Topology.TrailingSemicolonFatal | cproxy_config.c:71-78 | a trailing ';' leaves an empty last section, which is missing its '=', so startup is fatal |
| Topology.SingleSection | cproxy_config.c:71-72 | a string with no ';' is one section |
| Topology.RequestsCarry | cproxy_config.c:64-89 | every create request carries the name "default", config version 0 and the shared behavior record |
| Topology.RequestsOfAllOk | cproxy_config.c:85-89 | when every section parses, there is one request per section, in order, with its port and spec |
| Topology.HostAlwaysSucceeds | cproxy_config.c:90-100 | when creating and listening always succeed, well-formed sections return 0 after one request each |
| Topology.TopologyRoundTrip | cproxy_config.c:51-109 | a topology written as `port=spec` sections joined by ';' (positive ports, specs without ';') is read back as one request per section, in order, and returns 0 when the host always succeeds |
| Topology.TopologyTextSplits | cproxy_config.c:71-72 | such a topology string splits back into its sections |
| Dispatch.Init | cproxy_config.c:22-49 | startup returns exactly `InitOf`: nothing for an empty configuration, the adapters set up otherwise, then the parsed behavior handed to the topology parser, or 1 for an agent configuration |
| Dispatch.NothingForEmptyConfig | cproxy_config.c:28-36 | the adapters are set up if and only if the configuration is present and not empty; otherwise startup returns 0 having done nothing |
| Dispatch.AgentIff | cproxy_config.c:41-48 | startup returns 1 if and only if the configuration contains '@' and the behavior string parses; any other return is 0, and an agent configuration issues no request |
| Dispatch.PlainConfigDelegates | cproxy_config.c:38-42 | a configuration without '@' ends as the topology parser does with the parsed behavior, and a failed behavior assertion stops startup before any request |
| Dispatch.RequestsCarryBehavior | cproxy_config.c:38-42 | every request startup issues carries the behavior record it parsed |

## Left out

- Logging: the `fprintf` messages and the `settings.verbose` checks only write to stderr.
- The `settings.num_threads` global is not modelled. The two thread-count assertions become preconditions that tie `nthreads` to a `numThreads` parameter.
- Memory: `strdup` and `free` are left out. The parsers work on the string value.
- `cproxy_create` and `cproxy_listen` are not part of this model. They are the `Host` parameter: deterministic functions of the requests issued so far.
- `cproxy_init_a2a` and `cproxy_init_a2b` are not part of this model. Their effect is the `adaptersReady` flag.
- `cproxy_init_agent` and the `HAVE_CONFLATE_H` build are left out. The model is the build without it, where an agent configuration returns 1.
- CNumbers.ParseLong: `strtol` overflow saturation, `errno`, locales other than C, and the narrowing of its `long` result to `int` are not modelled. Values are unbounded integers.
- Behavior.MsToTimeval: the seconds use integer floor division where the source uses `floor(ms / 1000.0)`. For every 32-bit `int` the two give the same value.
- Assertions are taken to be compiled in, so a failed `downstream_max > 0` assertion ends startup (`Aborted`) rather than keeping a non-positive limit.
- The source's `key_val != NULL` and `key != NULL` checks have no branch. `strsep` on a non-NULL cursor never returns NULL, so they always hold.
- The final `IS_PROXY` assertion has no branch. `Protocol` has only the two protocols, so it always holds.
- Strings are sequences of characters with no terminating NUL. A '\0' inside a Dafny string is an ordinary character, while C would stop there.
- Process termination (`exit`, a failed `assert`) is the `Aborted` result. Nothing after it is modelled, and neither is the memory it abandons.
- The concrete configuration strings in the source's comments are not checked one by one. The general lemmas (Topology.TopologyRoundTrip, Topology.SectionOfParts, Behavior.SettingOfParts) cover them.
