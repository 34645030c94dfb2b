# Frame filters of the bistoury profiler report

Bistoury's proxy turns an async-profiler "collapsed" file into three
hot-method reports. Each sampled stack (frame names, outermost first) is
passed through one of three frame filters before it is added to a report
(`ProfilerAnalyzer.doParseFile`, `ProfilerAnalyzer.java` lines 88-92):

- all frames, unchanged (`hotMethod.json`);
- Java frames only: frames containing the tag `//` between class and method
  (`hotMethod-java.json`);
- compact Java frames (`getCompactStack`, `hotMethod-java-compact.json`).
  Non-Java frames are skipped. For each Java frame, the class name (the text
  before the first `//`) is classified by an external predicate
  `isCompactClass`. A frame is dropped when its class and the class of the
  previous Java frame are both compactable, so each run of compactable
  classes keeps only its first frame.

This project models the three filters. It proves properties of each
filter's result: each result is an ordered subsequence of the stack, and the
Java-only filter keeps exactly the Java frames. For compaction it proves
which frames are kept and which are dropped, that it equals the Java-only
filter followed by folding runs, that no two neighbouring compactable frames
remain, and that compacting again changes nothing.

Files:

- `Wrappers.dfy`: `Option` and `Result`.
- `JavaText.dfy`: the `java.lang.String` behaviour the filters depend on.
  It covers `indexOf`/`contains` and `split` with a literal separator and
  limit 0. For `split`: no match gives `[s]`; otherwise it cuts at the
  leftmost non-overlapping matches and drops trailing empty pieces.
- `ProfilerAnalyzer.dfy`: the three filters. It holds the compaction loop
  `GetCompactStack`, a method proved against the recursive specification
  `Compacted`, and the lemmas about them.

`CompactClassHelper.isCompactClass` is a parameter `isCompactClass: string -> bool`
that nothing is assumed about.

One might take a frame's class name to be the text before the first `//`.
The code computes `info.split("//")[0]`, which differs for a frame made only
of copies of `//` (`"//"`, `"////"`, ...). Java's `split` drops every (empty)
piece of such a frame, so `[0]` throws `ArrayIndexOutOfBoundsException`.
Unless `HotSpotMethodParser.parse` catches it, the exception ends
`doParseFile` before the compact report is written. `ClassName` and
`Compacted` return
`Failure(ArrayIndexOutOfBounds(frame))` in exactly that case.

## Model

| member | source | states |
|---|---|---|
| `JavaText.IndexOf` | bistoury-proxy/src/main/java/qunar/tc/bistoury/proxy/util/profiler/ProfilerAnalyzer.java:117 | the result is the leftmost index where the tag occurs, or none when it occurs nowhere |
| `JavaText.Contains` | bistoury-proxy/src/main/java/qunar/tc/bistoury/proxy/util/profiler/ProfilerAnalyzer.java:117 | true exactly when the tag occurs at some index of the string |
| `JavaText.Before` | bistoury-proxy/src/main/java/qunar/tc/bistoury/proxy/util/profiler/ProfilerAnalyzer.java:103 | a prefix of the frame with no tag starting inside it and the tag right after it; the whole frame when there is no tag |
| `JavaText.PiecesJoin` | bistoury-proxy/src/main/java/qunar/tc/bistoury/proxy/util/profiler/ProfilerAnalyzer.java:103 | joining the pieces that `split` cuts with the separator gives the string back |
| `JavaText.Split` | bistoury-proxy/src/main/java/qunar/tc/bistoury/proxy/util/profiler/ProfilerAnalyzer.java:103 | no match gives `[s]`; otherwise the pieces between the leftmost non-overlapping matches, with trailing empty pieces dropped (see `PiecesJoin`, `SplitEmptyIff`, `SplitFirst`) |
| `JavaText.SplitEmptyIff` | bistoury-proxy/src/main/java/qunar/tc/bistoury/proxy/util/profiler/ProfilerAnalyzer.java:103 | `split` returns no element exactly when the string is one or more copies of the separator |
| `JavaText.SplitFirst` | bistoury-proxy/src/main/java/qunar/tc/bistoury/proxy/util/profiler/ProfilerAnalyzer.java:103 | when `split` returns something, its element 0 is the text before the first separator |
| `ProfilerAnalyzer.IsJavaMethod` | bistoury-proxy/src/main/java/qunar/tc/bistoury/proxy/util/profiler/ProfilerAnalyzer.java:116-118 | a frame is a Java method exactly when `//` occurs in it |
| `ProfilerAnalyzer.ClassName` | bistoury-proxy/src/main/java/qunar/tc/bistoury/proxy/util/profiler/ProfilerAnalyzer.java:103 | fails, naming the frame, exactly when the frame is only copies of `//`; otherwise it is the text before the first `//` |
| `ProfilerAnalyzer.IsCompactFrame` | bistoury-proxy/src/main/java/qunar/tc/bistoury/proxy/util/profiler/ProfilerAnalyzer.java:103-104 | the `isCompact` value: `isCompactClass` of the frame's class name; false for a frame without one |
| `ProfilerAnalyzer.RepetitionIsJavaMethod` | bistoury-proxy/src/main/java/qunar/tc/bistoury/proxy/util/profiler/ProfilerAnalyzer.java:100-103 | a frame of only `//` copies passes the Java test, so the loop reaches `split` for it |
| `ProfilerAnalyzer.IdentityFilter` | bistoury-proxy/src/main/java/qunar/tc/bistoury/proxy/util/profiler/ProfilerAnalyzer.java:88 | the full report's stack is the sampled stack unchanged |
| `ProfilerAnalyzer.JavaOnlyFilter` | bistoury-proxy/src/main/java/qunar/tc/bistoury/proxy/util/profiler/ProfilerAnalyzer.java:89-91 | no longer than the stack, and every frame it holds is a Java frame of the stack |
| `ProfilerAnalyzer.JavaOnlyFilterExact` | bistoury-proxy/src/main/java/qunar/tc/bistoury/proxy/util/profiler/ProfilerAnalyzer.java:89-91 | the result is a subsequence of the stack holding every occurrence of each Java frame and no other frame |
| `ProfilerAnalyzer.JavaOnlyFilterExample` | bistoury-proxy/src/main/java/qunar/tc/bistoury/proxy/util/profiler/ProfilerAnalyzer.java:89-91 | `["pkg.Foo//bar", "nativecall", "pkg.Baz//qux"]` becomes `["pkg.Foo//bar", "pkg.Baz//qux"]` |
| `ProfilerAnalyzer.JavaFrameExample` | bistoury-proxy/src/main/java/qunar/tc/bistoury/proxy/util/profiler/ProfilerAnalyzer.java:116-118 | `pkg.Foo//bar` and `pkg.Baz//qux` are Java frames |
| `ProfilerAnalyzer.NativeFrameExample` | bistoury-proxy/src/main/java/qunar/tc/bistoury/proxy/util/profiler/ProfilerAnalyzer.java:116-118 | `nativecall` is not a Java frame |
| `ProfilerAnalyzer.Compacted` | bistoury-proxy/src/main/java/qunar/tc/bistoury/proxy/util/profiler/ProfilerAnalyzer.java:96-114 | a successful result is no longer than the Java-only filter's, and holds only Java frames of the stack that have a class name |
| `ProfilerAnalyzer.GetCompactStack` | bistoury-proxy/src/main/java/qunar/tc/bistoury/proxy/util/profiler/ProfilerAnalyzer.java:96-114 | the loop returns exactly the compaction of the stack from an unset flag, or the same error; a loop invariant keeps the flag equal to the compactability of the last Java frame seen |
| `ProfilerAnalyzer.ApplyFilter` | bistoury-proxy/src/main/java/qunar/tc/bistoury/proxy/util/profiler/ProfilerAnalyzer.java:88-92 | the full and Java-only filters never fail; only compaction can |
| `ProfilerAnalyzer.FilterLengthOrder` | bistoury-proxy/src/main/java/qunar/tc/bistoury/proxy/util/profiler/ProfilerAnalyzer.java:88-92 | compacted length <= Java-only length <= full length, for the same stack |
| `ProfilerAnalyzer.CompactedIsSubsequence` | bistoury-proxy/src/main/java/qunar/tc/bistoury/proxy/util/profiler/ProfilerAnalyzer.java:99-110 | a successful compaction is a subsequence of the stack (order kept) |
| `ProfilerAnalyzer.CompactedKeepsPlainFrames` | bistoury-proxy/src/main/java/qunar/tc/bistoury/proxy/util/profiler/ProfilerAnalyzer.java:108-110 | every occurrence of a Java frame whose class is not compactable is in the result |
| `ProfilerAnalyzer.CompactedFailsIff` | bistoury-proxy/src/main/java/qunar/tc/bistoury/proxy/util/profiler/ProfilerAnalyzer.java:99-104 | compaction fails exactly when some frame is only copies of `//`, and the error names the first such frame |
| `ProfilerAnalyzer.CompactedOfJavaOnly` | bistoury-proxy/src/main/java/qunar/tc/bistoury/proxy/util/profiler/ProfilerAnalyzer.java:99-102 | compacting the Java-only filtered stack gives the same result (or error) as compacting the raw stack |
| `ProfilerAnalyzer.LastJavaFrame` | bistoury-proxy/src/main/java/qunar/tc/bistoury/proxy/util/profiler/ProfilerAnalyzer.java:111 | the index of the last Java frame, with no Java frame after it; none when there is no Java frame |
| `ProfilerAnalyzer.FlagAfterStep` | bistoury-proxy/src/main/java/qunar/tc/bistoury/proxy/util/profiler/ProfilerAnalyzer.java:100-111 | one more frame sets the flag from its class only when it is a Java frame; a non-Java frame leaves the flag alone |
| `ProfilerAnalyzer.CompactedCons` | bistoury-proxy/src/main/java/qunar/tc/bistoury/proxy/util/profiler/ProfilerAnalyzer.java:104-111 | a Java frame is dropped exactly when it and the flag are both compactable; the rest runs with the frame's own compactability |
| `ProfilerAnalyzer.CompactedSkip` | bistoury-proxy/src/main/java/qunar/tc/bistoury/proxy/util/profiler/ProfilerAnalyzer.java:100-102 | a non-Java frame contributes nothing and leaves the flag unchanged |
| `ProfilerAnalyzer.CompactedFail` | bistoury-proxy/src/main/java/qunar/tc/bistoury/proxy/util/profiler/ProfilerAnalyzer.java:103 | a Java frame without a class name makes the whole compaction fail with that frame |
| `ProfilerAnalyzer.CompactedAppend` | bistoury-proxy/src/main/java/qunar/tc/bistoury/proxy/util/profiler/ProfilerAnalyzer.java:97-112 | compacting `p + q` is compacting `p`, then `q` from the flag `p` leaves behind |
| `ProfilerAnalyzer.CompactedAt` | bistoury-proxy/src/main/java/qunar/tc/bistoury/proxy/util/profiler/ProfilerAnalyzer.java:105-111 | Java frame `i` appears exactly when its class is not compactable, or no Java frame precedes it, or the nearest preceding Java frame is not compactable |
| `ProfilerAnalyzer.CompactedExample` | bistoury-proxy/src/main/java/qunar/tc/bistoury/proxy/util/profiler/ProfilerAnalyzer.java:105-111 | `[A(c), A2(c), B(n), A3(c)]` compacts to `[A, B, A3]` |
| `ProfilerAnalyzer.CompactedNoAdjacent` | bistoury-proxy/src/main/java/qunar/tc/bistoury/proxy/util/profiler/ProfilerAnalyzer.java:105-111 | no two neighbouring frames of the result are both compactable, and after a compactable frame the result does not start with one |
| `ProfilerAnalyzer.CompactedFixedPoint` | bistoury-proxy/src/main/java/qunar/tc/bistoury/proxy/util/profiler/ProfilerAnalyzer.java:105-111 | Java frames with class names and no neighbouring compactable pair are left as they are |
| `ProfilerAnalyzer.CompactedIdempotent` | bistoury-proxy/src/main/java/qunar/tc/bistoury/proxy/util/profiler/ProfilerAnalyzer.java:105-111 | compacting a compacted stack gives it back unchanged |

## Left out

- `analyze` (lines 56-77): it runs a shell or `cmd` process and waits for it. This is process I/O. The `RuntimeException` that wraps a failure of the compact filter is not modelled past the `Failure` result.
- `getAllPreAnalyzeCommand` and `getSinglePerlCommand` (lines 138-160): they list a directory and build perl command lines from system properties and file paths.
- `doParseFile`'s directory and file lookup, the output file names, `renameProfilerDir` and `createTempPath` (lines 81-87, 120-129, 166-170): filesystem operations. The pairing of each filter with its report is kept as `ApplyFilter`.
- `parseHotMethod` (lines 131-136): it hands the filter to `HotSpotMethodParser.parse` and `HotSpotMethodFormatter.format`, then serialises to JSON and writes a file. The call tree, the sample reader and the formatter are not part of this model, because their source is not part of it.
- `CompactClassHelper.isCompactClass` (line 104): its rules are not part of this model. It is an arbitrary total predicate on class names.
- Static initialisation (lines 37-51): resource lookup, the singleton and directory creation.
- Java `String.split` is modelled only for a separator without regular-expression metacharacters and with the default limit 0, which is the only way it is called here. `null` strings and stacks are not modelled.
- `new ArrayList<>(stack.size() / 2)` (line 97): the initial capacity has no effect on the result and is not modelled.
