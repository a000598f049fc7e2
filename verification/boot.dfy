/**
 * The launcher's one-shot tunnel-URL announcer: every stdout chunk of the
 * child process is echoed, and the first chunk holding a match of
 * `https://[a-z0-9\-]+\.trycloudflare\.com` also announces that match followed
 * by `/webhook`, once per process lifetime.
 */
module Boot {
  import opened Wrappers

  const SCHEME: string := "https://"
  const TUNNEL_DOMAIN: string := ".trycloudflare.com"

  /** What is appended to the matched host in the announcement. */
  const WEBHOOK_SUFFIX: string := "/webhook"

  // ---------------------------------------------------------------------
  // The pattern `https://[a-z0-9\-]+\.trycloudflare\.com`.

  /** The character class `[a-z0-9\-]` of the subdomain. */
  predicate IsSubdomainChar(c: char) {
    'a' <= c <= 'z' || '0' <= c <= '9' || c == '-'
  }

  /** `u` as a whole matches the pattern. */
  ghost predicate IsTunnelUrl(u: string) {
    |u| > |SCHEME| + |TUNNEL_DOMAIN| &&
    u[..|SCHEME|] == SCHEME &&
    u[|u| - |TUNNEL_DOMAIN|..] == TUNNEL_DOMAIN &&
    forall k :: |SCHEME| <= k < |u| - |TUNNEL_DOMAIN| ==> IsSubdomainChar(u[k])
  }

  /** The `n` characters of `s` from position `i` on match the pattern. */
  ghost predicate MatchesAt(s: string, i: nat, n: nat) {
    i + n <= |s| && IsTunnelUrl(s[i..i + n])
  }

  /** The end of the run of subdomain characters of `s` that starts at `k`. */
  function RunEnd(s: string, k: nat): (j: nat)
    requires k <= |s|
    ensures k <= j <= |s|
    ensures forall m :: k <= m < j ==> IsSubdomainChar(s[m])
    ensures j < |s| ==> !IsSubdomainChar(s[j])
    decreases |s| - k
  {
    if k < |s| && IsSubdomainChar(s[k]) then RunEnd(s, k + 1) else k
  }

  /** The length of the match that starts at `i`, if there is one. */
  function MatchLenAt(s: string, i: nat): (r: Option<nat>)
    requires i <= |s|
    ensures r.Some? ==> MatchesAt(s, i, r.value)
  {
    if i + |SCHEME| <= |s| && s[i..i + |SCHEME|] == SCHEME then
      var j := RunEnd(s, i + |SCHEME|);
      if j > i + |SCHEME| && j + |TUNNEL_DOMAIN| <= |s| && s[j..j + |TUNNEL_DOMAIN|] == TUNNEL_DOMAIN then
        var u := s[i..j + |TUNNEL_DOMAIN|];
        assert u[..|SCHEME|] == SCHEME;
        assert u[|u| - |TUNNEL_DOMAIN|..] == TUNNEL_DOMAIN;
        Some(j + |TUNNEL_DOMAIN| - i)
      else None
    else None
  }

  /** `MatchLenAt` misses no match. */
  lemma MatchLenAtComplete(s: string, i: nat, n: nat)
    requires MatchesAt(s, i, n)
    ensures MatchLenAt(s, i) == Some(n)
  {
    var u := s[i..i + n];
    var e := i + n - |TUNNEL_DOMAIN|;
    assert s[i..i + |SCHEME|] == u[..|SCHEME|];
    assert s[e..i + n] == u[|u| - |TUNNEL_DOMAIN|..];
    forall m | i + |SCHEME| <= m < e
      ensures IsSubdomainChar(s[m])
    {
      assert s[m] == u[m - i];
    }
    assert s[e] == '.';
    var j := RunEnd(s, i + |SCHEME|);
    assert j == e;
  }

  /**
   * At a given start there is at most one match: the subdomain cannot run
   * past a '.', so the greedy `+` never has a choice to make.
   */
  lemma MatchLengthUnique(s: string, i: nat, n1: nat, n2: nat)
    requires MatchesAt(s, i, n1) && MatchesAt(s, i, n2)
    ensures n1 == n2
  {
    MatchLenAtComplete(s, i, n1);
    MatchLenAtComplete(s, i, n2);
  }

  /** A match position and length in a chunk. */
  datatype Span = Span(start: nat, len: nat)

  /** The first position from `from` on at which a match starts, with its length. */
  function FindFrom(s: string, from: nat): (r: Option<Span>)
    requires from <= |s|
    ensures r.Some? ==> from <= r.value.start && MatchesAt(s, r.value.start, r.value.len)
    ensures r.Some? ==> forall p :: from <= p < r.value.start ==> MatchLenAt(s, p).None?
    ensures r.None? ==> forall p :: from <= p <= |s| ==> MatchLenAt(s, p).None?
    decreases |s| - from
  {
    match MatchLenAt(s, from)
    case Some(n) => Some(Span(from, n))
    case None => if from == |s| then None else FindFrom(s, from + 1)
  }

  /** No match starts before `bound` when the matcher finds none there. */
  lemma NoMatchBefore(s: string, bound: nat)
    requires forall p :: 0 <= p < bound && p <= |s| ==> MatchLenAt(s, p).None?
    ensures forall p: nat, n: nat :: p < bound ==> !MatchesAt(s, p, n)
  {
    forall p: nat, n: nat | p < bound
      ensures !MatchesAt(s, p, n)
    {
      if MatchesAt(s, p, n) {
        MatchLenAtComplete(s, p, n);
      }
    }
  }

  /**
   * `line.match(REG)[0]` as a span: the leftmost match of the pattern in `s`,
   * or `None` when `s` holds no match at all.
   */
  function FirstMatch(s: string): (r: Option<Span>)
    ensures r.Some? ==> MatchesAt(s, r.value.start, r.value.len)
    ensures r.Some? ==> forall p: nat, n: nat :: p < r.value.start ==> !MatchesAt(s, p, n)
    ensures r.None? ==> forall p: nat, n: nat :: !MatchesAt(s, p, n)
  {
    var r := FindFrom(s, 0);
    match r
    case Some(sp) =>
      NoMatchBefore(s, sp.start);
      r
    case None =>
      NoMatchBefore(s, |s| + 1);
      r
  }

  /**
   * The matched text `m[0]`: present exactly when the chunk holds a match,
   * and then the substring of the leftmost one.
   */
  function FirstUrl(s: string): (r: Option<string>)
    ensures r.Some? <==> exists p: nat, n: nat :: MatchesAt(s, p, n)
    ensures r.Some? ==> IsTunnelUrl(r.value)
    ensures r.Some? ==>
              exists p: nat :: MatchesAt(s, p, |r.value|) && s[p..p + |r.value|] == r.value &&
                               forall q: nat, n: nat :: q < p ==> !MatchesAt(s, q, n)
  {
    match FirstMatch(s)
    case Some(sp) =>
      var u := s[sp.start..sp.start + sp.len];
      assert |u| == sp.len && MatchesAt(s, sp.start, |u|);
      Some(u)
    case None => None
  }

  /** A chunk that starts with a tunnel URL announces exactly that URL. */
  lemma LeadingUrlFound(s: string, n: nat)
    requires MatchesAt(s, 0, n)
    ensures FirstUrl(s) == Some(s[..n])
  {
    var sp := FirstMatch(s).value;
    assert sp.start == 0;
    MatchLengthUnique(s, 0, n, sp.len);
  }

  /** `TUNNEL_DOMAIN` occurs in `s` at position `p`. */
  predicate DomainAt(s: string, p: nat) {
    p + |TUNNEL_DOMAIN| <= |s| && s[p..p + |TUNNEL_DOMAIN|] == TUNNEL_DOMAIN
  }

  /** Every match ends in the full domain, so a chunk that yields a URL holds the domain. */
  lemma UrlHasDomain(s: string)
    ensures FirstUrl(s).Some? ==> exists p: nat :: DomainAt(s, p)
  {
    if FirstUrl(s).Some? {
      var p: nat, n: nat :| MatchesAt(s, p, n);
      var u := s[p..p + n];
      assert s[p + n - |TUNNEL_DOMAIN|..p + n] == u[|u| - |TUNNEL_DOMAIN|..];
      assert DomainAt(s, p + n - |TUNNEL_DOMAIN|);
    }
  }

  // ---------------------------------------------------------------------
  // The data handler as a state machine over chunks.

  /** One entry of the launcher's stdout. */
  datatype Line =
    | Echo(text: string)     // a child chunk passed through verbatim
    | Announce(url: string)  // the one-time webhook URL announcement

  /** The state after some chunks: the `shown` flag and what was written. */
  datatype State = State(shown: bool, output: seq<Line>)

  /** What one chunk writes and how it leaves `shown`. */
  function React(shown: bool, chunk: string): (r: State)
  {
    if !shown && FirstUrl(chunk).Some? then
      State(true, [Echo(chunk), Announce(FirstUrl(chunk).value + WEBHOOK_SUFFIX)])
    else
      State(shown, [Echo(chunk)])
  }

  /** The effect of feeding `chunks` in order to the handler, starting from `shown`. */
  function Replay(shown: bool, chunks: seq<string>): State
    decreases |chunks|
  {
    if chunks == [] then State(shown, [])
    else
      var r := React(shown, chunks[0]);
      var t := Replay(r.shown, chunks[1..]);
      State(t.shown, r.output + t.output)
  }

  /** Replaying one more chunk extends the replay by that chunk's reaction. */
  lemma {:induction false} ReplayAppend(shown: bool, chunks: seq<string>, chunk: string)
    ensures Replay(shown, chunks + [chunk]) ==
            var t := Replay(shown, chunks);
            var r := React(t.shown, chunk);
            State(r.shown, t.output + r.output)
    decreases |chunks|
  {
    if chunks != [] {
      assert (chunks + [chunk])[1..] == chunks[1..] + [chunk];
      ReplayAppend(React(shown, chunks[0]).shown, chunks[1..], chunk);
    }
  }

  /** The first URL found in any of `chunks`, in order. */
  function FirstHit(chunks: seq<string>): Option<string>
  {
    if chunks == [] then None
    else if FirstUrl(chunks[0]).Some? then FirstUrl(chunks[0])
    else FirstHit(chunks[1..])
  }

  /** The texts of the echoed lines. */
  function Echoes(out: seq<Line>): seq<string>
  {
    if out == [] then []
    else (if out[0].Echo? then [out[0].text] else []) + Echoes(out[1..])
  }

  /** The URLs of the announcement lines. */
  function Announcements(out: seq<Line>): seq<string>
  {
    if out == [] then []
    else (if out[0].Announce? then [out[0].url] else []) + Announcements(out[1..])
  }

  lemma {:induction false} EchoesAppend(a: seq<Line>, b: seq<Line>)
    ensures Echoes(a + b) == Echoes(a) + Echoes(b)
  {
    if a != [] {
      assert (a + b)[0] == a[0];
      assert (a + b)[1..] == a[1..] + b;
      EchoesAppend(a[1..], b);
      calc {
        Echoes(a + b);
        Echoes([a[0]]) + Echoes(a[1..] + b);
        Echoes([a[0]]) + Echoes(a[1..]) + Echoes(b);
        Echoes(a) + Echoes(b);
      }
    } else {
      assert a + b == b;
    }
  }

  lemma {:induction false} AnnouncementsAppend(a: seq<Line>, b: seq<Line>)
    ensures Announcements(a + b) == Announcements(a) + Announcements(b)
  {
    if a != [] {
      assert (a + b)[0] == a[0];
      assert (a + b)[1..] == a[1..] + b;
      AnnouncementsAppend(a[1..], b);
      calc {
        Announcements(a + b);
        Announcements([a[0]]) + Announcements(a[1..] + b);
        Announcements([a[0]]) + Announcements(a[1..]) + Announcements(b);
        Announcements(a) + Announcements(b);
      }
    } else {
      assert a + b == b;
    }
  }

  /** Every chunk is echoed, verbatim and in order, matched or not. */
  lemma {:induction false} EveryChunkEchoed(shown: bool, chunks: seq<string>)
    ensures Echoes(Replay(shown, chunks).output) == chunks
    decreases |chunks|
  {
    if chunks != [] {
      var r := React(shown, chunks[0]);
      EveryChunkEchoed(r.shown, chunks[1..]);
      EchoesAppend(r.output, Replay(r.shown, chunks[1..]).output);
    }
  }

  /** `shown` ends up set exactly when it was set or some chunk held a match; it is never cleared. */
  lemma {:induction false} ShownOnceMatched(shown: bool, chunks: seq<string>)
    ensures Replay(shown, chunks).shown == (shown || FirstHit(chunks).Some?)
    decreases |chunks|
  {
    if chunks != [] {
      ShownOnceMatched(React(shown, chunks[0]).shown, chunks[1..]);
    }
  }

  /**
   * At most one announcement over any sequence of chunks: none once `shown`
   * is set, otherwise exactly the first URL found followed by the suffix,
   * or nothing when no chunk holds a match.
   */
  lemma {:induction false} AnnouncedAtMostOnce(shown: bool, chunks: seq<string>)
    ensures Announcements(Replay(shown, chunks).output) ==
            if !shown && FirstHit(chunks).Some? then [FirstHit(chunks).value + WEBHOOK_SUFFIX] else []
    decreases |chunks|
  {
    if chunks != [] {
      var r := React(shown, chunks[0]);
      AnnouncedAtMostOnce(r.shown, chunks[1..]);
      AnnouncementsAppend(r.output, Replay(r.shown, chunks[1..]).output);
    }
  }

  /** In a tunnel URL the only ':' is the one of "https://", at position 5. */
  lemma ColonsOfTunnelUrl(u: string)
    requires IsTunnelUrl(u)
    ensures forall i :: 0 <= i < |u| && i != 5 ==> u[i] != ':'
  {
  }

  /**
   * In a tunnel URL the only '.'s are the two of the domain: the one it
   * starts with and the one of ".com", 4 characters from the end.
   */
  lemma DotsOfTunnelUrl(u: string)
    requires IsTunnelUrl(u)
    ensures forall i :: 0 <= i < |u| && i != |u| - |TUNNEL_DOMAIN| && i != |u| - 4 ==> u[i] != '.'
  {
  }

  /** A tunnel URL has the ':' of "https://" at position 5 and a '.' where its domain starts. */
  lemma TunnelUrlMarks(v: string)
    requires IsTunnelUrl(v)
    ensures v[5] == ':' && v[|v| - |TUNNEL_DOMAIN|] == '.'
  {
  }

  /**
   * Inside any slice of a tunnel URL, the only match is the whole URL: it
   * starts at the URL's first character and runs to its end.
   */
  lemma MatchWithinUrl(u: string, lo: nat, hi: nat, p: nat, n: nat)
    requires IsTunnelUrl(u) && lo <= hi <= |u| && MatchesAt(u[lo..hi], p, n)
    ensures lo + p == 0 && n == |u|
  {
    var v := u[lo..hi][p..p + n];
    TunnelUrlMarks(v);
    ColonsOfTunnelUrl(u);
    assert v[5] == u[lo..hi][p + 5] == u[lo + p + 5];
    DotsOfTunnelUrl(u);
    assert v[n - |TUNNEL_DOMAIN|] == u[lo..hi][p + n - |TUNNEL_DOMAIN|] == u[lo + p + n - |TUNNEL_DOMAIN|];
  }

  /**
   * A tunnel URL split across two chunks, at any point, is found in
   * neither of them, although the joined text yields it: the handler
   * matches each chunk on its own.
   */
  lemma SplitHostMissed(u: string, k: nat)
    requires IsTunnelUrl(u) && 0 < k < |u|
    ensures FirstUrl(u[..k]) == None && FirstUrl(u[k..]) == None
    ensures FirstUrl(u[..k] + u[k..]) == Some(u)
  {
    assert u[0..k] == u[..k] && u[k..|u|] == u[k..];
    forall p: nat, n: nat
      ensures !MatchesAt(u[..k], p, n) && !MatchesAt(u[k..], p, n)
    {
      if MatchesAt(u[..k], p, n) {
        MatchWithinUrl(u, 0, k, p, n);
      }
      if MatchesAt(u[k..], p, n) {
        MatchWithinUrl(u, k, |u|, p, n);
      }
    }
    assert u[..k] + u[k..] == u;
    assert u[..|u|] == u;
    LeadingUrlFound(u, |u|);
  }

  /** After a first chunk that holds a match, a second chunk, matching or not, is only echoed. */
  lemma SecondChunkOnlyEchoed(c1: string, c2: string, url: string)
    requires FirstUrl(c1) == Some(url)
    ensures Replay(false, [c1, c2]).output == [Echo(c1), Announce(url + WEBHOOK_SUFFIX), Echo(c2)]
  {
    var first := React(false, c1);
    var rest := Replay(true, [c2]);
    assert React(true, c2) == State(true, [Echo(c2)]);
    assert [c2][1..] == [];
    assert Replay(true, []) == State(true, []);
    assert rest.output == [Echo(c2)] + [];
    assert [c1, c2][1..] == [c2];
    assert Replay(false, [c1, c2]).output == first.output + rest.output;
  }

  /**
   * A first chunk that starts with a tunnel URL `h`, whatever text follows it,
   * announces `h` followed by "/webhook", once; a second chunk, even a
   * matching one, is only echoed.
   */
  lemma AnnouncedOnlyForFirstMatch(h: string, tail: string, c2: string)
    requires IsTunnelUrl(h)
    ensures Replay(false, [h + tail, c2]).output ==
            [Echo(h + tail), Announce(h + "/webhook"), Echo(c2)]
  {
    var c1 := h + tail;
    assert c1[0..|h|] == h;
    LeadingUrlFound(c1, |h|);
    assert c1[..|h|] == h;
    SecondChunkOnlyEchoed(c1, c2, h);
  }

  // ---------------------------------------------------------------------
  // The handler with its module-level state.

  /**
   * The `cp.stdout.on("data")` handler together with the `shown` flag it
   * updates and the stdout it appends to.
   */
  class Announcer {
    var shown: bool
    var output: seq<Line>
    /** Every chunk received so far. */
    ghost var history: seq<string>

    /** The state is what replaying the history from a fresh start gives. */
    ghost predicate Valid()
      reads this
    {
      Replay(false, history) == State(shown, output)
    }

    constructor ()
      ensures Valid()
      ensures !shown && output == [] && history == []
    {
      shown := false;
      output := [];
      history := [];
    }

    /** Handle one chunk of the child's stdout. */
    method OnData(chunk: string)
      requires Valid()
      modifies this
      ensures Valid()
      ensures history == old(history) + [chunk]
      ensures shown == (old(shown) || FirstUrl(chunk).Some?)
      ensures output == old(output) + [Echo(chunk)] +
                        if !old(shown) && FirstUrl(chunk).Some?
                        then [Announce(FirstUrl(chunk).value + WEBHOOK_SUFFIX)]
                        else []
    {
      output := output + [Echo(chunk)];
      if !shown {
        var m := FirstUrl(chunk);
        if m.Some? {
          shown := true;
          output := output + [Announce(m.value + WEBHOOK_SUFFIX)];
        }
      }
      ReplayAppend(false, history, chunk);
      history := history + [chunk];
    }
  }
}
