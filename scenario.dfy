/**
 Concrete rewrites: the JSON body of the unit test at modify.rs lines 62-80,
 and a body where the port pass rewrites bytes the host pass injected.
 */
module Scenarios {
  import opened ByteStrings
  import opened Search
  import opened Replace
  import opened Modify
  import opened Capacity

  const PublicHost: Bytes := Encode("headless-browser")
  const InternalPort: Bytes := Encode(":9222")
  const PublicPort: Bytes := Encode(":443")

  /** The literal stretches of the test body around its two endpoints. */
  const BodyOpen: Bytes := Encode("{\"ws1\":\"ws://")
  const BodyMiddle: Bytes := Encode("/devtools/browser/a\",\"ws2\":\"ws://")
  const BodyClose: Bytes := Encode("/devtools/browser/b\"}")

  /** Two DevTools endpoints, one per loopback spelling, both on the internal port. */
  const JsonBody: Bytes :=
    BodyOpen + Loopback + InternalPort + BodyMiddle + Localhost + InternalPort + BodyClose

  /** The body the test expects: both endpoints on the public host and the public port. */
  const JsonExpected: Bytes :=
    BodyOpen + PublicHost + PublicPort + BodyMiddle + PublicHost + PublicPort + BodyClose

  /** The three patterns and the two replacements of the test cannot overlap one another. */
  lemma ScenarioSeparated()
    ensures Separated(PublicHost, InternalPort, PublicPort)
  {
    ForeignFirstBytesNoOverlap(Loopback, PublicHost);
    ForeignLastBytesNoOverlap(Localhost, PublicHost);
    ForeignFirstBytesNoOverlap(Loopback, PublicPort);
    ForeignFirstBytesNoOverlap(Localhost, PublicPort);
    ForeignLastBytesNoOverlap(InternalPort, PublicPort);
    ForeignFirstBytesNoOverlap(InternalPort, PublicHost);
    ForeignFirstBytesNoOverlap(Loopback, InternalPort);
    ForeignFirstBytesNoOverlap(Localhost, InternalPort);
  }

  /**
   The test's expectations: no `127.0.0.1`, no `localhost` and no internal
   port are left; the public host and the public port are present; and the
   output is exactly the body with both endpoints moved to the public host
   and port.
   */
  lemma JsonScenario()
    ensures var out := Rewrite(JsonBody, PublicHost, InternalPort, PublicPort);
      !Contains(out, Loopback) && !Contains(out, Localhost) && !Contains(out, InternalPort) &&
      Contains(out, PublicHost) && Contains(out, PublicPort)
    ensures Rewrite(JsonBody, PublicHost, InternalPort, PublicPort) == JsonExpected
  {
    ScenarioSeparated();
    assert MatchesAt(JsonBody, Loopback, 13);
    assert MatchesAt(JsonBody, InternalPort, 22);
    RewriteEliminates(JsonBody, PublicHost, InternalPort, PublicPort);
    RewriteCarriesReplacements(JsonBody, PublicHost, InternalPort, PublicPort);
    RewriteInOrder(JsonBody, PublicHost, InternalPort, PublicPort);
    JsonLoopbackPass();
    JsonLocalhostPass();
    JsonPortPass();
  }

  /**
   A sufficient condition, checkable byte by byte, for no occurrence of a
   pattern of two or more bytes to start inside `a`, whatever follows `a`:
   every byte equal to the pattern's first byte is followed, inside `a`, by a
   byte other than the pattern's second.
   */
  predicate NoPatternStart(a: Bytes, pat: Bytes)
    requires |pat| >= 2
  {
    forall q :: 0 <= q < |a| ==> a[q] != pat[0] || (q + 1 < |a| && a[q + 1] != pat[1])
  }

  lemma NoPatternStartWindows(a: Bytes, pat: Bytes, b: Bytes)
    requires |pat| >= 2 && NoPatternStart(a, pat)
    ensures NoMatchBetween(a + b, pat, 0, |a|)
  {
    var s := a + b;
    forall q: nat | q < |a| ensures !MatchesAt(s, pat, q) {
      if q + |pat| <= |s| {
        var w := s[q..q + |pat|];
        if a[q] != pat[0] {
          assert w[0] == a[q];
        } else {
          assert q + 1 < |a| && a[q + 1] != pat[1];
          assert w[1] == a[q + 1];
        }
      }
    }
  }

  lemma NoPatternStartConcat(a: Bytes, b: Bytes, pat: Bytes)
    requires |pat| >= 2 && NoPatternStart(a, pat) && NoPatternStart(b, pat)
    ensures NoPatternStart(a + b, pat)
  {
    var s := a + b;
    forall q | 0 <= q < |s| ensures s[q] != pat[0] || (q + 1 < |s| && s[q + 1] != pat[1]) {
      if q < |a| {
        assert s[q] == a[q];
        if a[q] == pat[0] {
          assert q + 1 < |a| && a[q + 1] != pat[1];
          assert s[q + 1] == a[q + 1];
        }
      } else {
        var k := q - |a|;
        assert s[q] == b[k];
        if b[k] == pat[0] {
          assert k + 1 < |b| && b[k + 1] != pat[1];
          assert s[q + 1] == b[k + 1];
        }
      }
    }
  }

  /** A pass over a buffer whose earliest occurrence of the pattern follows `a`, where none can start. */
  lemma PassFromFirstMatch(a: Bytes, pat: Bytes, b: Bytes, rep: Bytes)
    requires |pat| >= 2 && NoPatternStart(a, pat)
    ensures ReplaceAll(a + pat + b, pat, rep) == a + rep + ReplaceAll(b, pat, rep)
  {
    NoPatternStartWindows(a, pat, pat + b);
    SplitAtFirstMatch(a, pat, b, rep);
    assert a + pat + b == a + (pat + b);
    assert a + (rep + ReplaceAll(b, pat, rep)) == a + rep + ReplaceAll(b, pat, rep);
  }

  /** A pass over a buffer in which no occurrence of the pattern can start leaves it as it is. */
  lemma PassWithoutMatch(b: Bytes, pat: Bytes, rep: Bytes)
    requires |pat| >= 2 && NoPatternStart(b, pat)
    ensures ReplaceAll(b, pat, rep) == b
  {
    NoPatternStartWindows(b, pat, []);
    assert b + [] == b;
    forall q: nat ensures !MatchesAt(b, pat, q) {
      if q < |b| {
        assert !MatchesAt(b + [], pat, q);
      }
    }
    ReplaceAbsent(b, pat, rep);
  }

  /**
   A pass over a buffer with exactly one occurrence of its pattern, between
   two stretches in which none can start: only that occurrence is replaced.
   */
  lemma PassOverSingleMatch(a: Bytes, pat: Bytes, b: Bytes, rep: Bytes)
    requires |pat| >= 2 && NoPatternStart(a, pat) && NoPatternStart(b, pat)
    ensures ReplaceAll(a + pat + b, pat, rep) == a + rep + b
  {
    PassFromFirstMatch(a, pat, b, rep);
    PassWithoutMatch(b, pat, rep);
  }

  lemma BodyOpenAvoidsLoopback()
    ensures NoPatternStart(BodyOpen, Loopback)
  {
  }

  lemma InternalPortAvoidsLoopback()
    ensures NoPatternStart(InternalPort, Loopback)
  {
  }

  lemma BodyMiddleAvoidsLoopback()
    ensures NoPatternStart(BodyMiddle, Loopback)
  {
  }

  lemma LocalhostAvoidsLoopback()
    ensures NoPatternStart(Localhost, Loopback)
  {
  }

  lemma BodyCloseAvoidsLoopback()
    ensures NoPatternStart(BodyClose, Loopback)
  {
  }

  lemma BodyOpenAvoidsLocalhost()
    ensures NoPatternStart(BodyOpen, Localhost)
  {
  }

  lemma PublicHostAvoidsLocalhost()
    ensures NoPatternStart(PublicHost, Localhost)
  {
  }

  lemma InternalPortAvoidsLocalhost()
    ensures NoPatternStart(InternalPort, Localhost)
  {
  }

  lemma BodyMiddleAvoidsLocalhost()
    ensures NoPatternStart(BodyMiddle, Localhost)
  {
  }

  lemma BodyCloseAvoidsLocalhost()
    ensures NoPatternStart(BodyClose, Localhost)
  {
  }

  lemma BodyOpenAvoidsInternalPort()
    ensures NoPatternStart(BodyOpen, InternalPort)
  {
  }

  lemma PublicHostAvoidsInternalPort()
    ensures NoPatternStart(PublicHost, InternalPort)
  {
  }

  lemma BodyMiddleAvoidsInternalPort()
    ensures NoPatternStart(BodyMiddle, InternalPort)
  {
  }

  lemma BodyCloseAvoidsInternalPort()
    ensures NoPatternStart(BodyClose, InternalPort)
  {
  }

  /** The first host pass rewrites the one `127.0.0.1` of the test body. */
  lemma JsonLoopbackPass()
    ensures ReplaceAll(JsonBody, Loopback, PublicHost)
         == BodyOpen + PublicHost + InternalPort + BodyMiddle + Localhost + InternalPort + BodyClose
  {
    var rest := InternalPort + BodyMiddle + Localhost + InternalPort + BodyClose;
    BodyOpenAvoidsLoopback();
    InternalPortAvoidsLoopback();
    BodyMiddleAvoidsLoopback();
    LocalhostAvoidsLoopback();
    BodyCloseAvoidsLoopback();
    NoPatternStartConcat(InternalPort, BodyMiddle, Loopback);
    NoPatternStartConcat(InternalPort + BodyMiddle, Localhost, Loopback);
    NoPatternStartConcat(InternalPort + BodyMiddle + Localhost, InternalPort, Loopback);
    NoPatternStartConcat(InternalPort + BodyMiddle + Localhost + InternalPort, BodyClose, Loopback);
    assert JsonBody == BodyOpen + Loopback + rest;
    PassOverSingleMatch(BodyOpen, Loopback, rest, PublicHost);
    assert BodyOpen + PublicHost + rest
        == BodyOpen + PublicHost + InternalPort + BodyMiddle + Localhost + InternalPort + BodyClose;
  }

  /** The second host pass rewrites the one `localhost` left in it. */
  lemma JsonLocalhostPass()
    ensures ReplaceAll(BodyOpen + PublicHost + InternalPort + BodyMiddle + Localhost + InternalPort + BodyClose,
                       Localhost, PublicHost)
         == BodyOpen + PublicHost + InternalPort + BodyMiddle + PublicHost + InternalPort + BodyClose
  {
    var before := BodyOpen + PublicHost + InternalPort + BodyMiddle;
    var after := InternalPort + BodyClose;
    BodyOpenAvoidsLocalhost();
    PublicHostAvoidsLocalhost();
    InternalPortAvoidsLocalhost();
    BodyMiddleAvoidsLocalhost();
    BodyCloseAvoidsLocalhost();
    NoPatternStartConcat(BodyOpen, PublicHost, Localhost);
    NoPatternStartConcat(BodyOpen + PublicHost, InternalPort, Localhost);
    NoPatternStartConcat(BodyOpen + PublicHost + InternalPort, BodyMiddle, Localhost);
    NoPatternStartConcat(InternalPort, BodyClose, Localhost);
    assert BodyOpen + PublicHost + InternalPort + BodyMiddle + Localhost + InternalPort + BodyClose
        == before + Localhost + after;
    PassOverSingleMatch(before, Localhost, after, PublicHost);
    assert before + PublicHost + after
        == BodyOpen + PublicHost + InternalPort + BodyMiddle + PublicHost + InternalPort + BodyClose;
  }

  /** The port pass rewrites both internal ports, the first one after a rewritten host. */
  lemma JsonPortPass()
    ensures ReplaceAll(BodyOpen + PublicHost + InternalPort + BodyMiddle + PublicHost + InternalPort + BodyClose,
                       InternalPort, PublicPort)
         == JsonExpected
  {
    var first := BodyOpen + PublicHost;
    var second := BodyMiddle + PublicHost;
    var tail := second + InternalPort + BodyClose;
    BodyOpenAvoidsInternalPort();
    PublicHostAvoidsInternalPort();
    BodyMiddleAvoidsInternalPort();
    BodyCloseAvoidsInternalPort();
    NoPatternStartConcat(BodyOpen, PublicHost, InternalPort);
    NoPatternStartConcat(BodyMiddle, PublicHost, InternalPort);
    PassFromFirstMatch(first, InternalPort, tail, PublicPort);
    PassOverSingleMatch(second, InternalPort, BodyClose, PublicPort);
    assert BodyOpen + PublicHost + InternalPort + BodyMiddle + PublicHost + InternalPort + BodyClose
        == first + InternalPort + tail;
    assert first + PublicPort + (second + PublicPort + BodyClose) == JsonExpected;
  }

  /**
   Passes see each other's output: with the public host `proxy:9222`, the
   port pass rewrites the port that the `localhost` pass has just written.
   */
  lemma PortPassSeesInjectedHost()
    ensures Rewrite(Localhost, Encode("proxy:9222"), InternalPort, PublicPort) == Encode("proxy:443")
  {
    var host := Encode("proxy:9222");
    RewriteInOrder(Localhost, host, InternalPort, PublicPort);
    LoopbackNotInLocalhost();
    ReplaceAbsent(Localhost, Loopback, host);
    LocalhostPassWritesHost(host);
    PortPassRewritesInjectedPort();
  }

  /**
   The host `proxy:9222` carries the internal port. The configuration is not
   `Separated`, yet it is `Eliminating`: the rewrite still removes every
   pattern, as `PortPassSeesInjectedHost` shows on one body.
   */
  lemma InjectedPortConfiguration()
    ensures Eliminating(Encode("proxy:9222"), InternalPort, PublicPort)
    ensures !Separated(Encode("proxy:9222"), InternalPort, PublicPort)
  {
    var host := Encode("proxy:9222");
    ForeignFirstBytesNoOverlap(Loopback, host);
    ForeignFirstBytesNoOverlap(Localhost, host);
    ForeignFirstBytesNoOverlap(Loopback, PublicPort);
    ForeignFirstBytesNoOverlap(Localhost, PublicPort);
    ForeignLastBytesNoOverlap(InternalPort, PublicPort);
    forall t | 0 <= t < |InternalPort| && 0 <= 5 + t < |host| ensures InternalPort[t] == host[5 + t] {
    }
    assert AgreesAt(InternalPort, host, 5);
  }

  /** With the host `proxy:9222`, every body comes out free of both loopback spellings and of the internal port. */
  lemma InjectedPortEliminated(body: Bytes)
    ensures var out := Rewrite(body, Encode("proxy:9222"), InternalPort, PublicPort);
      !Contains(out, Loopback) && !Contains(out, Localhost) && !Contains(out, InternalPort)
  {
    InjectedPortConfiguration();
    RewriteEliminates(body, Encode("proxy:9222"), InternalPort, PublicPort);
  }

  /** The two spellings have the same length and differ in their first byte. */
  lemma LoopbackNotInLocalhost()
    ensures !Contains(Localhost, Loopback)
  {
    forall i: nat ensures !MatchesAt(Localhost, Loopback, i) {
      if i == 0 {
        assert Localhost[0..|Loopback|][0] != Loopback[0];
      }
    }
  }

  /** A buffer that is exactly `localhost` becomes exactly the host. */
  lemma LocalhostPassWritesHost(host: Bytes)
    ensures ReplaceAll(Localhost, Localhost, host) == host
  {
    assert MatchesAt(Localhost, Localhost, 0);
    assert ReplaceFrom(Localhost, Localhost, host, |Localhost|) == [];
  }

  /** In `proxy:9222` the port pass finds the port at offset 5 and rewrites it. */
  lemma PortPassRewritesInjectedPort()
    ensures ReplaceAll(Encode("proxy:9222"), InternalPort, PublicPort) == Encode("proxy:443")
  {
    var host := Encode("proxy:9222");
    assert MatchesAt(host, InternalPort, 5);
    forall q: nat | q < 5 ensures !MatchesAt(host, InternalPort, q) {
      assert host[q] != InternalPort[0];
    }
    ChunkStep(host, InternalPort, PublicPort, 0, 5);
    assert ReplaceFrom(host, InternalPort, PublicPort, 10) == [];
    assert host[0..5] + PublicPort == Encode("proxy:443");
  }

  /**
   The port pair `:9222` to `:443` on the empty body: as written, the port
   pass panics in both builds, where an empty body should come back empty.
   */
  lemma EmptyBodyPortPassPanics()
    ensures DebugCapacity(0, |InternalPort|, |PublicPort|).None?
    ensures WithCapacityPanics(ReleaseCapacity(0, |InternalPort|, |PublicPort|))
  {
    ShortReplacementPanics(0, |InternalPort|, |PublicPort|);
  }
}
