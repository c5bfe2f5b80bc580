/**
 * The C string handling both parsers rely on: `strsep` walking a buffer one
 * delimiter at a time, the whole split it produces, and the split of one
 * token at its first delimiter.
 */
module CStrings {
  import opened Outcomes

  /** Index of the first `d` in `s`, or `|s|` when there is none. */
  function FirstIndex(s: string, d: char): (i: nat)
    ensures i <= |s|
    ensures forall k | 0 <= k < i :: s[k] != d
    ensures i < |s| ==> s[i] == d
    decreases |s|
  {
    if |s| == 0 then 0
    else if s[0] == d then 0
    else 1 + FirstIndex(s[1..], d)
  }

  /**
   * The tokens that repeated `strsep` calls return from `s`: every stretch
   * between delimiters, empty ones included, so one more token than there
   * are delimiters.
   */
  function Split(s: string, d: char): (parts: seq<string>)
    ensures |parts| >= 1
    ensures forall p | p in parts :: d !in p
    decreases |s|
  {
    var i := FirstIndex(s, d);
    if i == |s| then [s] else [s[..i]] + Split(s[i + 1..], d)
  }

  /** The tokens still to come when the `strsep` cursor is `next`. */
  function Remaining(buf: string, next: Option<nat>, d: char): seq<string>
    requires next.Some? ==> next.value <= |buf|
  {
    if next.None? then [] else Split(buf[next.value..], d)
  }

  /** Glues tokens back together with `d` between neighbours. */
  function Join(parts: seq<string>, d: char): string
  {
    if |parts| == 0 then ""
    else if |parts| == 1 then parts[0]
    else parts[0] + [d] + Join(parts[1..], d)
  }

  /**
   * One `strsep` call on a token: the text before the first `d`, and the
   * text after it, or `None` (the cursor set to NULL) when `d` does not occur.
   */
  function Cut(s: string, d: char): (r: (string, Option<string>))
    ensures d !in r.0
    ensures r.1.None? ==> r.0 == s && d !in s
    ensures r.1.Some? ==> s == r.0 + [d] + r.1.value
  {
    var i := FirstIndex(s, d);
    if i == |s| then (s, None) else (s[..i], Some(s[i + 1..]))
  }

  /**
   * `strsep(&cursor, delim)` on the buffer `buf` with a non-NULL cursor at
   * `pos`: returns the token that starts there and the new cursor, which is
   * just past the delimiter that ended the token, or NULL when the token ran
   * to the end of the buffer. The token is the first piece of the split of
   * what is left, and the new cursor leaves exactly the rest of that split.
   */
  method Strsep(buf: string, pos: nat, delim: char) returns (token: string, next: Option<nat>)
    requires pos <= |buf|
    ensures |token| == FirstIndex(buf[pos..], delim)
    ensures delim !in token
    ensures next.None? ==> token == buf[pos..]
    ensures next.Some? ==> pos < next.value <= |buf| && buf[pos..next.value] == token + [delim]
    ensures Split(buf[pos..], delim) == [token] + Remaining(buf, next, delim)
    ensures Cut(buf[pos..], delim) == (token, if next.None? then None else Some(buf[next.value..]))
  {
    var i := pos;
    while i < |buf| && buf[i] != delim
      invariant pos <= i <= |buf|
      invariant forall k | pos <= k < i :: buf[k] != delim
    {
      i := i + 1;
    }
    token := buf[pos..i];
    next := if i < |buf| then Some(i + 1) else None;
    ghost var rest := buf[pos..];
    FirstIndexAt(rest, delim, i - pos);
    assert token == rest[..i - pos];
    if i < |buf| {
      assert rest[i - pos + 1..] == buf[i + 1..];
    } else {
      assert token == rest;
    }
  }

  /** The first index is the one that no earlier delimiter precedes. */
  lemma FirstIndexAt(s: string, d: char, i: nat)
    requires i <= |s|
    requires forall k | 0 <= k < i :: s[k] != d
    requires i < |s| ==> s[i] == d
    ensures FirstIndex(s, d) == i
  {
  }

  /** Joining the tokens of a split gives back the original string. */
  lemma {:induction false} JoinSplit(s: string, d: char)
    ensures Join(Split(s, d), d) == s
    decreases |s|
  {
    var i := FirstIndex(s, d);
    if i < |s| {
      var p, r := s[..i], s[i + 1..];
      assert s == p + [d] + r;
      assert Split(s, d) == [p] + Split(r, d);
      JoinSplit(r, d);
      JoinCons(p, Split(r, d), d);
    }
  }

  lemma JoinCons(p: string, parts: seq<string>, d: char)
    requires |parts| >= 1
    ensures Join([p] + parts, d) == p + [d] + Join(parts, d)
  {
    assert ([p] + parts)[1..] == parts;
  }

  /** A join starts with its first token. */
  lemma JoinStartsWithFirst(parts: seq<string>, d: char)
    requires |parts| >= 1
    ensures parts[0] <= Join(parts, d)
  {
    if |parts| > 1 {
      assert Join(parts, d) == parts[0] + ([d] + Join(parts[1..], d));
    }
  }

  /** Splitting joined tokens that hold no delimiter gives back the tokens. */
  lemma {:induction false} SplitJoin(parts: seq<string>, d: char)
    requires |parts| >= 1
    requires forall p | p in parts :: d !in p
    ensures Split(Join(parts, d), d) == parts
    decreases |parts|
  {
    if |parts| == 1 {
      NoDelimiterSplit(parts[0], d);
    } else {
      var p, rest := parts[0], parts[1..];
      assert parts == [p] + rest;
      assert forall q | q in rest :: q in parts;
      JoinCons(p, rest, d);
      SplitCons(p, Join(rest, d), d);
      SplitJoin(rest, d);
    }
  }

  /** A string without the delimiter is a single token. */
  lemma NoDelimiterSplit(s: string, d: char)
    requires d !in s
    ensures Split(s, d) == [s]
  {
    assert forall k | 0 <= k < |s| :: s[k] in s;
    FirstIndexAt(s, d, |s|);
  }

  /** A delimiter-free token, a delimiter and the rest split as that token and the rest's split. */
  lemma SplitCons(p: string, tail: string, d: char)
    requires d !in p
    ensures Split(p + [d] + tail, d) == [p] + Split(tail, d)
  {
    var s := p + [d] + tail;
    assert forall k | 0 <= k < |p| :: s[k] == p[k] && p[k] in p;
    FirstIndexAt(s, d, |p|);
    assert s[..|p|] == p;
    assert s[|p| + 1..] == tail;
  }

  /** A split has exactly one more token than the string has delimiters. */
  lemma {:induction false} SplitCount(s: string, d: char)
    ensures |Split(s, d)| == multiset(s)[d] + 1
    decreases |s|
  {
    var i := FirstIndex(s, d);
    if i == |s| {
      assert d !in multiset(s);
    } else {
      SplitCount(s[i + 1..], d);
      assert s == s[..i] + [d] + s[i + 1..];
      assert forall k | 0 <= k < i :: s[..i][k] != d;
      assert d !in s[..i];
      assert d !in multiset(s[..i]);
    }
  }

  /** Appending one delimiter and one more token to a token sequence's join. */
  lemma {:induction false} JoinAppend(parts: seq<string>, t: string, d: char)
    requires |parts| >= 1
    ensures Join(parts + [t], d) == Join(parts, d) + [d] + t
    decreases |parts|
  {
    if |parts| > 1 {
      assert (parts + [t])[1..] == parts[1..] + [t];
      JoinAppend(parts[1..], t, d);
    }
  }

  /** A delimiter and a delimiter-free tail add exactly one last token. */
  lemma AppendSplit(s: string, t: string, d: char)
    requires d !in t
    ensures Split(s + [d] + t, d) == Split(s, d) + [t]
  {
    var parts := Split(s, d);
    JoinSplit(s, d);
    JoinAppend(parts, t, d);
    SplitJoin(parts + [t], d);
  }
}
