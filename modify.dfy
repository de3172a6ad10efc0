/**
 The response-body rewriter of `modify_json_output_with_host`: both loopback
 spellings become the public host name, then the internal port becomes the
 public port. The replacement host and the port pair, process-wide settings
 in the source, are parameters here.
 */
module Modify {
  import opened ByteStrings
  import opened Search
  import opened Replace

  /** `b"127.0.0.1"` */
  const Loopback: Bytes := Encode("127.0.0.1")
  /** `b"localhost"` */
  const Localhost: Bytes := Encode("localhost")
  /** The host patterns, in the order their passes run. */
  const TargetHosts: seq<Bytes> := [Loopback, Localhost]

  predicate NonEmptyPatterns(targets: seq<Bytes>) {
    forall i :: 0 <= i < |targets| ==> |targets[i]| > 0
  }

  /**
   One host pass, skipped when the pattern already is the replacement host.
   The skip is an optimisation only: the result is the full pass's result.
   */
  function HostRound(buf: Bytes, target: Bytes, host: Bytes): (r: Bytes)
    requires |target| > 0
    ensures r == ReplaceAll(buf, target, host)
    ensures target == host ==> r == buf
  {
    if target == host then
      ReplaceSelf(buf, target);
      buf
    else
      ReplaceAll(buf, target, host)
  }

  /** The host passes of `targets`, in order, each scanning the previous one's output. */
  function HostRounds(buf: Bytes, targets: seq<Bytes>, host: Bytes): Bytes
    requires NonEmptyPatterns(targets)
  {
    if targets == [] then buf
    else
      var last := |targets| - 1;
      HostRound(HostRounds(buf, targets[..last], host), targets[last], host)
  }

  /** The whole rewrite: the host passes, then the port pass, which has no skip. */
  function Rewrite(body: Bytes, host: Bytes, targetPort: Bytes, replacementPort: Bytes): Bytes
    requires |targetPort| > 0
  {
    ReplaceAll(HostRounds(body, TargetHosts, host), targetPort, replacementPort)
  }

  /** `modify_json_output_with_host`, modify.rs lines 8-55. */
  method ModifyJsonOutputWithHost(body: Bytes, replacementHost: Bytes, targetPort: Bytes, replacementPort: Bytes)
    returns (out: Bytes)
    requires |targetPort| > 0
    ensures out == Rewrite(body, replacementHost, targetPort, replacementPort)
  {
    var modified := body;
    var hosts := TargetHosts;
    for h := 0 to |hosts|
      invariant modified == HostRounds(body, hosts[..h], replacementHost)
    {
      assert hosts[..h + 1][..h] == hosts[..h];
      var targetHost := hosts[h];
      if targetHost == replacementHost {
        continue;
      }
      modified := ReplacePass(modified, targetHost, replacementHost);
    }
    assert hosts[..|hosts|] == hosts;
    out := ReplacePass(modified, targetPort, replacementPort);
  }

  /**
   The host passes are cumulative and ordered: `localhost` is looked for in
   the output of the `127.0.0.1` pass.
   */
  lemma HostRoundsInOrder(body: Bytes, host: Bytes)
    ensures HostRounds(body, TargetHosts, host) == ReplaceAll(ReplaceAll(body, Loopback, host), Localhost, host)
  {
    var first := HostRound(body, Loopback, host);
    assert TargetHosts[..1] == [Loopback] && [Loopback][..0] == [];
    assert HostRounds(body, [Loopback], host) == first;
    assert HostRounds(body, TargetHosts, host) == HostRound(first, Localhost, host);
  }

  /** The port pass scans the output of both host passes. */
  lemma RewriteInOrder(body: Bytes, host: Bytes, targetPort: Bytes, replacementPort: Bytes)
    requires |targetPort| > 0
    ensures Rewrite(body, host, targetPort, replacementPort)
         == ReplaceAll(ReplaceAll(ReplaceAll(body, Loopback, host), Localhost, host), targetPort, replacementPort)
  {
    HostRoundsInOrder(body, host);
  }

  /** A body that mentions neither loopback spelling leaves the host passes untouched. */
  lemma HostRoundsWithoutLoopback(body: Bytes, host: Bytes)
    requires !Contains(body, Loopback) && !Contains(body, Localhost)
    ensures HostRounds(body, TargetHosts, host) == body
  {
    HostRoundsInOrder(body, host);
    ReplaceAbsent(body, Loopback, host);
    ReplaceAbsent(body, Localhost, host);
  }

  /** A body holding none of the three patterns comes back byte for byte. */
  lemma RewriteWithoutPatterns(body: Bytes, host: Bytes, targetPort: Bytes, replacementPort: Bytes)
    requires |targetPort| > 0
    requires !Contains(body, Loopback) && !Contains(body, Localhost) && !Contains(body, targetPort)
    ensures Rewrite(body, host, targetPort, replacementPort) == body
  {
    HostRoundsWithoutLoopback(body, host);
    ReplaceAbsent(body, targetPort, replacementPort);
  }

  /** The empty body is rewritten to the empty body, whatever the configuration. */
  lemma RewriteEmpty(host: Bytes, targetPort: Bytes, replacementPort: Bytes)
    requires |targetPort| > 0
    ensures Rewrite([], host, targetPort, replacementPort) == []
  {
    RewriteWithoutPatterns([], host, targetPort, replacementPort);
  }

  /**
   Length accounting: every match of every pass trades the pattern's length
   for its replacement's, each pass counting matches in its own input.
   */
  lemma RewriteLength(body: Bytes, host: Bytes, targetPort: Bytes, replacementPort: Bytes)
    requires |targetPort| > 0
    ensures
      var afterLoopback := ReplaceAll(body, Loopback, host);
      var afterLocalhost := ReplaceAll(afterLoopback, Localhost, host);
      |Rewrite(body, host, targetPort, replacementPort)|
        == |body|
           + Count(body, Loopback) * (|host| - |Loopback|)
           + Count(afterLoopback, Localhost) * (|host| - |Localhost|)
           + Count(afterLocalhost, targetPort) * (|replacementPort| - |targetPort|)
  {
    var afterLoopback := ReplaceAll(body, Loopback, host);
    var afterLocalhost := ReplaceAll(afterLoopback, Localhost, host);
    RewriteInOrder(body, host, targetPort, replacementPort);
    ReplaceLength(body, Loopback, host);
    ReplaceLength(afterLoopback, Localhost, host);
    ReplaceLength(afterLocalhost, targetPort, replacementPort);
  }

  /**
   The configuration under which no pattern survives a rewrite: both
   replacements are non-empty, neither loopback spelling can overlap a
   replacement written after it, and the port pattern cannot overlap its own
   replacement. A host that carries the port pattern is allowed: the port
   pass rewrites what the host passes wrote.
   */
  ghost predicate Eliminating(host: Bytes, targetPort: Bytes, replacementPort: Bytes) {
    |host| > 0 && |replacementPort| > 0 &&
    NoOverlap(Loopback, host) && NoOverlap(Localhost, host) &&
    NoOverlap(Loopback, replacementPort) && NoOverlap(Localhost, replacementPort) &&
    NoOverlap(targetPort, replacementPort)
  }

  /**
   The configuration under which a rewrite settles: it is `Eliminating`, and
   moreover the port pattern can overlap neither the public host nor either
   loopback spelling, so no replacement re-matches any pattern.
   */
  ghost predicate Separated(host: Bytes, targetPort: Bytes, replacementPort: Bytes) {
    Eliminating(host, targetPort, replacementPort) &&
    NoOverlap(targetPort, host) &&
    NoOverlap(Loopback, targetPort) && NoOverlap(Localhost, targetPort)
  }

  /** Under an eliminating configuration no loopback spelling and no internal port survives. */
  lemma RewriteEliminates(body: Bytes, host: Bytes, targetPort: Bytes, replacementPort: Bytes)
    requires |targetPort| > 0 && Eliminating(host, targetPort, replacementPort)
    ensures var out := Rewrite(body, host, targetPort, replacementPort);
      !Contains(out, Loopback) && !Contains(out, Localhost) && !Contains(out, targetPort)
  {
    var afterLoopback := ReplaceAll(body, Loopback, host);
    var afterLocalhost := ReplaceAll(afterLoopback, Localhost, host);
    RewriteInOrder(body, host, targetPort, replacementPort);
    ReplaceEliminates(body, Loopback, host);
    ReplaceKeepsAbsent(afterLoopback, Localhost, host, Loopback);
    ReplaceEliminates(afterLoopback, Localhost, host);
    ReplaceKeepsAbsent(afterLocalhost, targetPort, replacementPort, Loopback);
    ReplaceKeepsAbsent(afterLocalhost, targetPort, replacementPort, Localhost);
    ReplaceEliminates(afterLocalhost, targetPort, replacementPort);
  }

  /** Under a separated configuration a second rewrite changes nothing. */
  lemma RewriteIdempotent(body: Bytes, host: Bytes, targetPort: Bytes, replacementPort: Bytes)
    requires |targetPort| > 0 && Separated(host, targetPort, replacementPort)
    ensures var out := Rewrite(body, host, targetPort, replacementPort);
      Rewrite(out, host, targetPort, replacementPort) == out
  {
    var out := Rewrite(body, host, targetPort, replacementPort);
    RewriteEliminates(body, host, targetPort, replacementPort);
    RewriteWithoutPatterns(out, host, targetPort, replacementPort);
  }

  /**
   Under a separated configuration a body that names a loopback host comes out
   naming the public host, and one that names the internal port comes out
   naming the public port.
   */
  lemma RewriteCarriesReplacements(body: Bytes, host: Bytes, targetPort: Bytes, replacementPort: Bytes)
    requires |targetPort| > 0 && Separated(host, targetPort, replacementPort)
    ensures var out := Rewrite(body, host, targetPort, replacementPort);
      (Contains(body, Loopback) || Contains(body, Localhost) ==> Contains(out, host)) &&
      (Contains(body, targetPort) ==> Contains(out, replacementPort))
  {
    var afterLoopback := ReplaceAll(body, Loopback, host);
    var afterLocalhost := ReplaceAll(afterLoopback, Localhost, host);
    RewriteInOrder(body, host, targetPort, replacementPort);
    if Contains(body, Loopback) {
      ReplaceIntroduces(body, Loopback, host);
      ReplaceKeepsPresent(afterLoopback, Localhost, host, host);
      ReplaceKeepsPresent(afterLocalhost, targetPort, replacementPort, host);
    } else if Contains(body, Localhost) {
      ReplaceAbsent(body, Loopback, host);
      ReplaceIntroduces(afterLoopback, Localhost, host);
      ReplaceKeepsPresent(afterLocalhost, targetPort, replacementPort, host);
    }
    if Contains(body, targetPort) {
      ReplaceKeepsPresent(body, Loopback, host, targetPort);
      ReplaceKeepsPresent(afterLoopback, Localhost, host, targetPort);
      ReplaceIntroduces(afterLocalhost, targetPort, replacementPort);
    }
  }
}
