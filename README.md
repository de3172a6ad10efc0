# Response-body host and port rewriter

A model of the rewriter in `headless_browser_lib/src/modify.rs` of the
headless-browser proxy. The sandboxed browser advertises its DevTools
endpoints as `127.0.0.1` or `localhost` on an internal port. Before a response
body reaches an external client, `modify_json_output_with_host` rewrites
those addresses to a public host name and a public port. The rewrite is
byte-level. It runs three passes in a fixed order:

1. every `127.0.0.1` becomes the replacement host;
2. every `localhost` becomes the replacement host;
3. every target-port byte string becomes the replacement port.

Each pass is one left-to-right, non-overlapping scan of the previous pass's
output. A host pass is skipped when its pattern equals the replacement host.
The port pass is never skipped.

Files:

- `bytes.dfy` (module `ByteStrings`): bytes (`u8`), byte strings, occurrence
  of a pattern at an offset, and `NoOverlap`: no occurrence of one pattern
  can overlap an occurrence of another.
- `search.dfy` (module `Search`): `windows(n).position(..)` as the scanning
  method `Position`, specified by `IsFirstFrom`: the earliest offset, at or
  after the cursor, whose window equals the pattern.
- `replace.dfy` (module `Replace`): the reference definition `ReplaceFrom` /
  `ReplaceAll` of one pass (at a match, emit the replacement and jump past
  it; otherwise copy one byte and move on), the match count `Count`, and the
  pass loop `ReplacePass`. The loop has a cursor `start` and an output
  accumulator, and copies whole stretches up to the next match; it is proved
  to produce the reference bytes. Also the lemmas about one pass.
- `modify.rs` is modelled in `modify.dfy` (module `Modify`):
  - the skip rule `HostRound`;
  - the ordered composition `HostRounds` / `Rewrite`;
  - the method `ModifyJsonOutputWithHost`, with a `for` loop over the two
    host patterns followed by the port pass;
  - lemmas about the whole rewrite.
- `scenario.dfy` (module `Scenarios`): the unit test's JSON body and its
  exact output, worked out pass by pass; a body in which the port pass
  rewrites bytes that a host pass injected; and the empty body that the
  written capacity hint makes panic.
- `capacity.dfy` (module `Capacity`): the `Vec::with_capacity` hint and
  the panic it can cause (see Findings).

Buffers are values (`seq<Byte>`). The source's `Vec` accumulators
(`next_buffer`, `final_buffer`) are local sequence variables that grow by
concatenation, and `modified_buffer` is reassigned after each host pass.

`crate::HOST_NAME` and `crate::TARGET_REPLACEMENT` are defined elsewhere.
They become the parameters `replacementHost`, `targetPort` and
`replacementPort`. The unit test reads its port pair from
`TARGET_REPLACEMENT`. The scenarios use the pair `:9222` → `:443`.

## Model

| member | source | states |
|---|---|---|
| `Search.Position` | headless_browser_lib/src/modify.rs:26-28 | the window scan of `buf[start..]` returns the offset, counted from `start`, of the earliest window equal to the pattern (no window between `start` and it matches); `None` exactly when no window from `start` on matches, which includes a remainder shorter than the pattern |
| `Replace.Count` | headless_browser_lib/src/modify.rs:26-33 | the number of matches of one pass is zero exactly when the pattern is absent |
| `Replace.CountZero` | headless_browser_lib/src/modify.rs:26-33 | from any cursor, the scan takes no match exactly when no window from the cursor on holds the pattern |
| `Replace.CountBound` | headless_browser_lib/src/modify.rs:26-33 | the matches of one pass do not overlap: matches × pattern length ≤ buffer length |
| `Replace.CopyUpTo` | headless_browser_lib/src/modify.rs:30 | bytes at which no match starts come out unchanged, as one stretch |
| `Replace.ChunkStep` | headless_browser_lib/src/modify.rs:30-32 | one turn of the loop: from the cursor, the output is the bytes up to the earliest match, then the replacement, then the output of the scan resumed right after the match |
| `Replace.ChunkEnd` | headless_browser_lib/src/modify.rs:35 | when the search fails, the output from the cursor is the rest of the buffer, unchanged |
| `Replace.ReplacePass` | headless_browser_lib/src/modify.rs:24-35 | the `while let` loop with cursor `start` (kept `<= |buf|` by an invariant, so every slice is in bounds) produces exactly `ReplaceAll` |
| `Replace.PassStep` | headless_browser_lib/src/modify.rs:30-32 | appending the copied stretch and the replacement to the accumulator and moving the cursor past the match keeps accumulator + rest-of-scan equal to the whole pass |
| `Replace.ShiftFrom` | headless_browser_lib/src/modify.rs:26-35 | the scan of a buffer does not depend on bytes before the cursor: scanning `a + b` from `|a| + i` gives the scan of `b` from `i` |
| `Replace.SplitAtFirstMatch` | headless_browser_lib/src/modify.rs:26-35 | when the earliest match follows the prefix `a`, the pass over `a + pat + b` is `a`, the replacement, then the pass over `b` |
| `Replace.ReplaceAbsent` | headless_browser_lib/src/modify.rs:26-35 | a buffer without the pattern comes out byte for byte, with no match counted; the empty buffer is such a buffer |
| `Replace.ReplaceSelf` | headless_browser_lib/src/modify.rs:17-19 | a pass whose replacement equals its pattern returns its input, so skipping it is never observable |
| `Replace.ReplaceLength` | headless_browser_lib/src/modify.rs:30-35 | output length = input length + matches × (replacement length − pattern length) |
| `Replace.ReplaceOverwritesFirstMatch` | headless_browser_lib/src/modify.rs:30-31 | at the offset of the earliest match, the output holds the replacement |
| `Replace.ReplaceUnchangedIff` | headless_browser_lib/src/modify.rs:16-35 | a pass leaves its buffer unchanged if and only if the replacement equals the pattern or the pattern is absent |
| `Replace.ReplaceIntroduces` | headless_browser_lib/src/modify.rs:30-31 | when the pattern occurs, the replacement occurs in the output |
| `Replace.CopiedBytesHoldNoMatch` | headless_browser_lib/src/modify.rs:30-35 | a stretch the scan copies verbatim does not hold the pattern |
| `Replace.ReplaceEliminates` | headless_browser_lib/src/modify.rs:26-35 | if the replacement is non-empty and cannot overlap the pattern, no occurrence of the pattern is left |
| `Replace.ReplaceKeepsAbsent` | headless_browser_lib/src/modify.rs:26-35 | a pass with a non-empty replacement creates no occurrence of a string that cannot overlap that replacement |
| `Replace.ReplaceKeepsPresent` | headless_browser_lib/src/modify.rs:26-35 | an occurrence of a string that no match of the pattern can overlap survives the pass |
| `Modify.HostRound` | headless_browser_lib/src/modify.rs:16-36 | a host pass whose pattern equals the host returns the buffer unchanged, and in every case the result equals the full replacement pass |
| `Modify.ModifyJsonOutputWithHost` | headless_browser_lib/src/modify.rs:8-55 | the method returns `Rewrite`: the `127.0.0.1` pass, then the `localhost` pass, each skipped when its pattern equals the host, then the port pass, which has no skip; the target port must be non-empty |
| `Modify.HostRoundsInOrder` | headless_browser_lib/src/modify.rs:16-37 | the host passes run `127.0.0.1` first, then `localhost` on its output |
| `Modify.RewriteInOrder` | headless_browser_lib/src/modify.rs:36-52 | the port pass scans the output of both host passes, including the host bytes they injected |
| `Modify.HostRoundsWithoutLoopback` | headless_browser_lib/src/modify.rs:16-37 | a body with neither loopback spelling leaves the host passes unchanged |
| `Modify.RewriteWithoutPatterns` | headless_browser_lib/src/modify.rs:8-55 | a body with none of the three patterns is returned byte for byte |
| `Modify.RewriteEmpty` | headless_browser_lib/src/modify.rs:8-55 | the empty body is rewritten to the empty body |
| `Modify.RewriteLength` | headless_browser_lib/src/modify.rs:16-52 | the output length is the input length plus, for each pass, the matches in that pass's input × (replacement length − pattern length) |
| `Modify.RewriteEliminates` | headless_browser_lib/src/modify.rs:16-52 | when the configuration is `Eliminating`, no `127.0.0.1`, no `localhost` and no target port remains, also when the host carries the target port |
| `Modify.RewriteIdempotent` | headless_browser_lib/src/modify.rs:8-55 | when the configuration is `Separated`, rewriting the output again changes nothing |
| `Modify.RewriteCarriesReplacements` | headless_browser_lib/src/modify.rs:16-52 | when the configuration is `Separated`, a body naming a loopback host comes out naming the public host, and one naming the target port comes out naming the replacement port |
| `Scenarios.ScenarioSeparated` | headless_browser_lib/src/modify.rs:63-70 | the test's patterns and replacements (`headless-browser`, `:9222`, `:443`) form a `Separated` configuration |
| `Scenarios.JsonScenario` | headless_browser_lib/src/modify.rs:62-80 | the test's JSON body comes out with no `127.0.0.1`, no `localhost` and no `:9222`, and with both `headless-browser` and `:443`; the output is exactly the body with both endpoints on `headless-browser:443` |
| `Scenarios.JsonLoopbackPass` | headless_browser_lib/src/modify.rs:16-36 | the `127.0.0.1` pass over the test body replaces its one loopback address and nothing else |
| `Scenarios.JsonLocalhostPass` | headless_browser_lib/src/modify.rs:16-36 | the `localhost` pass then replaces the one `localhost` and nothing else |
| `Scenarios.JsonPortPass` | headless_browser_lib/src/modify.rs:39-52 | the port pass then replaces both `:9222`, giving the expected body |
| `Scenarios.NoPatternStartWindows` | headless_browser_lib/src/modify.rs:26-28 | in a stretch where every byte equal to the pattern's first byte is followed by one other than its second, no window starting in the stretch matches, whatever follows it |
| `Scenarios.PassFromFirstMatch` | headless_browser_lib/src/modify.rs:26-35 | after such a stretch, an occurrence of the pattern is the first match: the pass copies the stretch, writes the replacement and carries on after the match |
| `Scenarios.PassWithoutMatch` | headless_browser_lib/src/modify.rs:26-35 | a buffer in which no match can start comes out of the pass unchanged |
| `Scenarios.PassOverSingleMatch` | headless_browser_lib/src/modify.rs:26-35 | a single occurrence between two such stretches is replaced, and only it |
| `Scenarios.LocalhostPassWritesHost` | headless_browser_lib/src/modify.rs:26-35 | a body that is exactly `localhost` becomes exactly the host |
| `Scenarios.PortPassRewritesInjectedPort` | headless_browser_lib/src/modify.rs:44-52 | in `proxy:9222` the port pass rewrites the port to give `proxy:443` |
| `Scenarios.PortPassSeesInjectedHost` | headless_browser_lib/src/modify.rs:36-52 | with host `proxy:9222`, the body `localhost` is rewritten to `proxy:443`: the port pass rewrites bytes a host pass wrote |
| `Scenarios.InjectedPortConfiguration` | headless_browser_lib/src/modify.rs:36-52 | the host `proxy:9222` with `:9222` → `:443` is `Eliminating` but not `Separated`: the host carries the target port |
| `Scenarios.InjectedPortEliminated` | headless_browser_lib/src/modify.rs:16-52 | with that host, every body comes out without `127.0.0.1`, `localhost` and `:9222` |
| `Scenarios.LoopbackNotInLocalhost` | headless_browser_lib/src/modify.rs:16 | `127.0.0.1` does not occur in `localhost`, so the first host pass leaves that body alone |
| `Scenarios.EmptyBodyPortPassPanics` | headless_browser_lib/src/modify.rs:40-41 | with `:9222` → `:443`, the port pass on the empty body panics in both builds |
| `Capacity.DebugCapacity` | headless_browser_lib/src/modify.rs:21-23 | the capacity hint as written, in debug-build `usize` arithmetic: it panics exactly when the replacement is shorter than the pattern, and otherwise yields `len + replacement − pattern`, which fits a `usize` |
| `Capacity.ReleaseCapacity` | headless_browser_lib/src/modify.rs:40-41 | the capacity hint as written, in release-build wrapping arithmetic; the result is a `usize` |
| `Capacity.ShortReplacementPanics` | headless_browser_lib/src/modify.rs:21-23 | with a replacement shorter than its pattern, a debug build panics for every buffer; a release build panics (capacity overflow) for every buffer shorter than the difference |
| `Capacity.CapacityHint` | headless_browser_lib/src/modify.rs:40-41 | the corrected hint never exceeds `len + replacement`, so it never asks for more than `isize::MAX` when those fit |
| `Capacity.CapacityHintAgrees` | headless_browser_lib/src/modify.rs:21-23 | wherever the written hint does not panic, the corrected hint has the same value |
| `Capacity.CapacityHintExactForOneMatch` | headless_browser_lib/src/modify.rs:21-23 | for a buffer with exactly one match, the corrected hint equals the pass's output length |

`Eliminating(host, targetPort, replacementPort)` means:

- both replacements are non-empty;
- neither loopback spelling can overlap the host or the replacement port;
- the target port cannot overlap the replacement port.

`Separated(host, targetPort, replacementPort)` is `Eliminating` and, in addition:

- the target port cannot overlap the host;
- the target port cannot overlap either loopback spelling.

## Left out

- The `hyper::body::Bytes` conversions (`as_ref`, `.into()`, lines 9 and 54) and the `modify_json_output` wrapper (lines 4-6). Both are plumbing around foreign types. Buffers are byte sequences here.
- `crate::HOST_NAME` and `crate::TARGET_REPLACEMENT` (lines 5, 11 and 63): their definitions are not part of this model. They are parameters here.
- The passes do not compute a capacity. `Vec::with_capacity` never changes the bytes a pass produces. The hint and the panic it can cause are modelled separately in `Capacity`. The passes behave like the corrected hint: they never panic.
- Any JSON meaning of the body: the transform is byte-level.
- Modify.RewriteEliminates: full elimination is proved only for an `Eliminating` configuration. Some condition is needed: with pattern `aa` and replacement `a`, the buffer `aaa` becomes `aa`. The conditions used are the ones a later pass relies on: each replacement non-empty, no loopback spelling overlapping the host or the replacement port, and the target port not overlapping its replacement. A host that carries the target port is allowed (`Scenarios.InjectedPortConfiguration`).
- Modify.RewriteIdempotent and Modify.RewriteCarriesReplacements: proved only for a `Separated` configuration, in which no replacement can re-match any pattern.
- Scenarios.JsonScenario: the unit test's port pair comes from `crate::TARGET_REPLACEMENT`, which is not visible. The lemma fixes it to `:9222` → `:443`.

## Findings

| source | as written | input that shows it | evidently intended | confidence | as-written member | corrected member |
|---|---|---|---|---|---|---|
| headless_browser_lib/src/modify.rs:21-23, 40-41 | the capacity hint computes `buf.len() + (replacement.len() - pattern.len())` in `usize` | port pair `:9222` → `:443` with the empty body. In a debug build the subtraction overflows and panics (for every body). In a release build it wraps, the hint becomes `2^64 - 1`, and `Vec::with_capacity` panics with capacity overflow. A host name shorter than 9 bytes does the same in the host passes | the hint is only an allocation hint, and a shorter (even empty) replacement is allowed. So the hint should saturate at zero, and an empty body should give an empty body | not executed; whether the test itself panics depends on `TARGET_REPLACEMENT`, which is not visible | `Capacity.DebugCapacity`, `Capacity.ReleaseCapacity`, `Capacity.ShortReplacementPanics`, `Scenarios.EmptyBodyPortPassPanics` | `Capacity.CapacityHint`, `Capacity.CapacityHintAgrees`, `Capacity.CapacityHintExactForOneMatch` |
