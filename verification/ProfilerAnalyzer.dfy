/**
 * The frame-selection policies that turn a collapsed stack sample into the
 * stack inserted into a hot-method report: all frames, Java frames only, and
 * Java frames with runs of compactable classes folded to their first frame.
 * A stack is a sequence of frame names, outermost frame first; a Java frame
 * names its class and method separated by "//".
 */
module ProfilerAnalyzer {
  import opened Wrappers
  import opened JavaText

  /** Separates a Java frame's class name from its method name. */
  const JavaMethodTag: string := "//"

  /** What the compacting filter throws: `split` returned no element, so `[0]` is out of bounds. */
  datatype AnalyzeError = ArrayIndexOutOfBounds(frame: string)

  // ---------------------------------------------------------------------
  // Frames
  // ---------------------------------------------------------------------

  /** A frame is a Java method when the tag occurs anywhere in it. */
  function IsJavaMethod(frame: string): (r: bool)
    ensures r <==> exists i :: OccursAt(frame, JavaMethodTag, i)
  {
    Contains(frame, JavaMethodTag)
  }

  /**
   * `info.split("//")[0]`: the text before the first tag. Java's `split`
   * drops trailing empty pieces, so a frame made of nothing but copies of the
   * tag yields an empty array and indexing it fails.
   */
  function ClassName(info: string): (r: Result<string, AnalyzeError>)
    ensures r.Failure? <==> IsRepetition(info, JavaMethodTag)
    ensures r.Failure? ==> r.error == ArrayIndexOutOfBounds(info)
    ensures r.Success? ==> r.value == Before(info, JavaMethodTag)
  {
    SplitEmptyIff(info, JavaMethodTag);
    var parts := Split(info, JavaMethodTag);
    if |parts| == 0 then Failure(ArrayIndexOutOfBounds(info))
    else
      SplitFirst(info, JavaMethodTag);
      Success(parts[0])
  }

  /** A frame made only of tags is a Java frame, so the compacting filter does reach `split` for it. */
  lemma RepetitionIsJavaMethod(info: string)
    requires IsRepetition(info, JavaMethodTag)
    ensures IsJavaMethod(info)
  {
    assert OccursAt(info, JavaMethodTag, 0);
  }

  /** Whether the frame's class is one that `isCompactClass` folds; a frame without a class name is not. */
  function IsCompactFrame(info: string, isCompactClass: string -> bool): (r: bool)
    ensures !IsRepetition(info, JavaMethodTag) ==> (r <==> isCompactClass(Before(info, JavaMethodTag)))
    ensures IsRepetition(info, JavaMethodTag) ==> !r
  {
    match ClassName(info)
    case Success(className) => isCompactClass(className)
    case Failure(_) => false
  }

  // ---------------------------------------------------------------------
  // The three filters
  // ---------------------------------------------------------------------

  /** The filter of the full report: every frame. */
  function IdentityFilter(stack: seq<string>): (r: seq<string>)
    ensures r == stack
  {
    stack
  }

  /** The filter of the Java report: the Java frames, in their order. */
  function JavaOnlyFilter(stack: seq<string>): (r: seq<string>)
    ensures |r| <= |stack|
    ensures forall f :: f in r ==> f in stack && IsJavaMethod(f)
    decreases |stack|
  {
    if stack == [] then []
    else (if IsJavaMethod(stack[0]) then [stack[0]] else []) + JavaOnlyFilter(stack[1..])
  }

  /**
   * The filter of the compact Java report, starting with `preClassIsCompact`
   * telling whether the Java frame before `stack` had a compactable class.
   * Non-Java frames are skipped and leave the flag alone; a Java frame is
   * dropped when its class and the previous Java frame's class are both
   * compactable, and kept otherwise.
   */
  function Compacted(stack: seq<string>, isCompactClass: string -> bool, preClassIsCompact: bool)
    : (r: Result<seq<string>, AnalyzeError>)
    ensures r.Success? ==> |r.value| <= |JavaOnlyFilter(stack)|
    ensures r.Success? ==> forall f :: f in r.value ==> f in stack && IsJavaMethod(f) && ClassName(f).Success?
    decreases |stack|
  {
    if stack == [] then Success([])
    else
      var info := stack[0];
      if !IsJavaMethod(info) then Compacted(stack[1..], isCompactClass, preClassIsCompact)
      else
        match ClassName(info)
        case Failure(e) => Failure(e)
        case Success(className) =>
          var isCompact := isCompactClass(className);
          var rest := Compacted(stack[1..], isCompactClass, isCompact);
          if rest.Failure? then rest
          else if isCompact && preClassIsCompact then rest
          else Success([info] + rest.value)
  }

  /** `done` followed by what `r` computes, or `r`'s error. */
  function Prepend(done: seq<string>, r: Result<seq<string>, AnalyzeError>): Result<seq<string>, AnalyzeError>
  {
    if r.Failure? then r else Success(done + r.value)
  }

  /** `a` followed by `b`; the first error wins. */
  function Then(a: Result<seq<string>, AnalyzeError>, b: Result<seq<string>, AnalyzeError>): Result<seq<string>, AnalyzeError>
  {
    if a.Failure? then a else Prepend(a.value, b)
  }

  /**
   * `getCompactStack`: one pass over the stack, appending kept frames to
   * `result` and remembering in `preClassIsCompact` whether the last Java
   * frame's class was compactable.
   */
  method GetCompactStack(stack: seq<string>, isCompactClass: string -> bool)
    returns (r: Result<seq<string>, AnalyzeError>)
    ensures r == Compacted(stack, isCompactClass, false)
  {
    var result: seq<string> := [];
    var preClassIsCompact := false;
    assert stack[0..] == stack;
    assert Compacted(stack, isCompactClass, false).Success? ==> [] + Compacted(stack, isCompactClass, false).value == Compacted(stack, isCompactClass, false).value;
    for i := 0 to |stack|
      invariant Compacted(stack, isCompactClass, false)
                == Prepend(result, Compacted(stack[i..], isCompactClass, preClassIsCompact))
      invariant preClassIsCompact == FlagAfter(stack[..i], isCompactClass, false)
    {
      var info := stack[i];
      assert stack[i..][1..] == stack[i + 1..];
      FlagAfterStep(stack, i, isCompactClass, false);
      if !IsJavaMethod(info) {
        continue;
      }
      var split := ClassName(info);
      if split.Failure? {
        return Failure(split.error);
      }
      var className := split.value;
      var isCompact := isCompactClass(className);
      ghost var rest := Compacted(stack[i + 1..], isCompactClass, isCompact);
      if rest.Success? {
        assert result + ([info] + rest.value) == (result + [info]) + rest.value;
      }
      if isCompact && !preClassIsCompact {
        result := result + [info];
      }
      if !isCompact {
        result := result + [info];
      }
      preClassIsCompact := isCompact;
    }
    assert stack[|stack|..] == [];
    assert result + [] == result;
    return Success(result);
  }

  // ---------------------------------------------------------------------
  // Policies as the report builder applies them
  // ---------------------------------------------------------------------

  /** The three reports built from one collapsed file, one per filter. */
  datatype FramePolicy = AllFrames | JavaFrames | CompactJavaFrames

  function ApplyFilter(policy: FramePolicy, stack: seq<string>, isCompactClass: string -> bool)
    : (r: Result<seq<string>, AnalyzeError>)
    ensures policy != CompactJavaFrames ==> r.Success?
  {
    match policy
    case AllFrames => Success(IdentityFilter(stack))
    case JavaFrames => Success(JavaOnlyFilter(stack))
    case CompactJavaFrames => Compacted(stack, isCompactClass, false)
  }

  /** Each filter keeps at most what the one before it keeps. */
  lemma FilterLengthOrder(stack: seq<string>, isCompactClass: string -> bool)
    ensures |ApplyFilter(JavaFrames, stack, isCompactClass).value| <= |ApplyFilter(AllFrames, stack, isCompactClass).value|
    ensures ApplyFilter(CompactJavaFrames, stack, isCompactClass).Success? ==>
      |ApplyFilter(CompactJavaFrames, stack, isCompactClass).value| <= |ApplyFilter(JavaFrames, stack, isCompactClass).value|
  {
  }

  // ---------------------------------------------------------------------
  // The Java-only filter
  // ---------------------------------------------------------------------

  /** `xs` is `ys` with some elements left out, the rest in their order. */
  predicate IsSubsequence(xs: seq<string>, ys: seq<string>)
    decreases |ys|
  {
    xs == [] || (ys != [] && ((xs[0] == ys[0] && IsSubsequence(xs[1..], ys[1..])) || IsSubsequence(xs, ys[1..])))
  }

  /**
   * The Java-only filter keeps exactly the Java frames: its result is a
   * subsequence of the stack holding every occurrence of every Java frame
   * and nothing else.
   */
  lemma {:induction false} JavaOnlyFilterExact(stack: seq<string>)
    ensures IsSubsequence(JavaOnlyFilter(stack), stack)
    ensures forall f :: multiset(JavaOnlyFilter(stack))[f] == if IsJavaMethod(f) then multiset(stack)[f] else 0
    decreases |stack|
  {
    if stack != [] {
      var rest := JavaOnlyFilter(stack[1..]);
      JavaOnlyFilterExact(stack[1..]);
      assert stack == [stack[0]] + stack[1..];
      if IsJavaMethod(stack[0]) {
        assert JavaOnlyFilter(stack) == [stack[0]] + rest;
        assert JavaOnlyFilter(stack)[1..] == rest;
      } else {
        assert JavaOnlyFilter(stack) == rest;
      }
    }
  }

  lemma JavaFrameExample(frame: string)
    requires frame == "pkg.Foo//bar" || frame == "pkg.Baz//qux"
    ensures IsJavaMethod(frame)
  {
    assert frame[7..9] == JavaMethodTag;
    assert OccursAt(frame, JavaMethodTag, 7);
  }

  lemma NativeFrameExample()
    ensures !IsJavaMethod("nativecall")
  {
    var frame := "nativecall";
    assert '/' !in frame;
    assert forall i :: OccursAt(frame, JavaMethodTag, i) ==> frame[i..i + 2][0] in frame;
  }

  /** A native frame between two Java frames is dropped. */
  lemma JavaOnlyFilterExample()
    ensures JavaOnlyFilter(["pkg.Foo//bar", "nativecall", "pkg.Baz//qux"]) == ["pkg.Foo//bar", "pkg.Baz//qux"]
  {
    var stack := ["pkg.Foo//bar", "nativecall", "pkg.Baz//qux"];
    JavaFrameExample(stack[0]);
    NativeFrameExample();
    JavaFrameExample(stack[2]);
    assert stack[1..][1..] == [stack[2]];
    assert [stack[2]][1..] == [];
    assert JavaOnlyFilter([stack[2]]) == [stack[2]];
    assert JavaOnlyFilter(stack[1..]) == [stack[2]];
  }

  // ---------------------------------------------------------------------
  // The compacting filter
  // ---------------------------------------------------------------------

  /** Compaction keeps frames in their order and drops some: its result is a subsequence of the stack. */
  lemma {:induction false} CompactedIsSubsequence(stack: seq<string>, isCompactClass: string -> bool, preClassIsCompact: bool)
    ensures var r := Compacted(stack, isCompactClass, preClassIsCompact);
            r.Success? ==> IsSubsequence(r.value, stack)
    decreases |stack|
  {
    if stack != [] && IsJavaMethod(stack[0]) && ClassName(stack[0]).Success? {
      var isCompact := isCompactClass(ClassName(stack[0]).value);
      CompactedIsSubsequence(stack[1..], isCompactClass, isCompact);
      var rest := Compacted(stack[1..], isCompactClass, isCompact);
      if rest.Success? && !(isCompact && preClassIsCompact) {
        assert ([stack[0]] + rest.value)[1..] == rest.value;
      }
    } else if stack != [] {
      CompactedIsSubsequence(stack[1..], isCompactClass, preClassIsCompact);
    }
  }

  /** Every occurrence of a Java frame whose class is not compactable survives compaction. */
  lemma {:induction false} CompactedKeepsPlainFrames(stack: seq<string>, isCompactClass: string -> bool, preClassIsCompact: bool)
    ensures var r := Compacted(stack, isCompactClass, preClassIsCompact);
            r.Success? ==>
              forall f :: IsJavaMethod(f) && !IsCompactFrame(f, isCompactClass) ==> multiset(r.value)[f] == multiset(stack)[f]
    decreases |stack|
  {
    if stack != [] {
      assert stack == [stack[0]] + stack[1..];
      if IsJavaMethod(stack[0]) && ClassName(stack[0]).Success? {
        var isCompact := isCompactClass(ClassName(stack[0]).value);
        CompactedKeepsPlainFrames(stack[1..], isCompactClass, isCompact);
      } else {
        CompactedKeepsPlainFrames(stack[1..], isCompactClass, preClassIsCompact);
      }
    }
  }

  /** Compaction fails exactly when some frame is nothing but tags, and it names the first such frame. */
  lemma {:induction false} CompactedFailsIff(stack: seq<string>, isCompactClass: string -> bool, preClassIsCompact: bool)
    ensures var r := Compacted(stack, isCompactClass, preClassIsCompact);
            r.Failure? <==> exists i :: 0 <= i < |stack| && IsRepetition(stack[i], JavaMethodTag)
    ensures var r := Compacted(stack, isCompactClass, preClassIsCompact);
            r.Failure? ==> exists i :: 0 <= i < |stack| && IsRepetition(stack[i], JavaMethodTag) && r.error == ArrayIndexOutOfBounds(stack[i])
                                      && forall j :: 0 <= j < i ==> !IsRepetition(stack[j], JavaMethodTag)
    decreases |stack|
  {
    if stack != [] {
      var info := stack[0];
      if IsRepetition(info, JavaMethodTag) {
        RepetitionIsJavaMethod(info);
        assert Compacted(stack, isCompactClass, preClassIsCompact) == Failure(ArrayIndexOutOfBounds(info));
      } else {
        var pre' := if IsJavaMethod(info) then isCompactClass(ClassName(info).value) else preClassIsCompact;
        CompactedFailsIff(stack[1..], isCompactClass, pre');
        assert Compacted(stack, isCompactClass, preClassIsCompact).Failure? == Compacted(stack[1..], isCompactClass, pre').Failure?;
        if exists i :: 0 <= i < |stack| && IsRepetition(stack[i], JavaMethodTag) {
          var i :| 0 <= i < |stack| && IsRepetition(stack[i], JavaMethodTag);
          assert stack[1..][i - 1] == stack[i];
        }
        if Compacted(stack, isCompactClass, preClassIsCompact).Failure? {
          assert Compacted(stack, isCompactClass, preClassIsCompact) == Compacted(stack[1..], isCompactClass, pre');
          var i :| 0 <= i < |stack[1..]| && IsRepetition(stack[1..][i], JavaMethodTag)
                   && Compacted(stack[1..], isCompactClass, pre').error == ArrayIndexOutOfBounds(stack[1..][i])
                   && forall j :: 0 <= j < i ==> !IsRepetition(stack[1..][j], JavaMethodTag);
          assert stack[i + 1] == stack[1..][i];
          forall j | 0 <= j < i + 1 ensures !IsRepetition(stack[j], JavaMethodTag) {
            if j > 0 { assert stack[j] == stack[1..][j - 1]; }
          }
        }
      }
    }
  }

  /** Skipping non-Java frames first changes nothing: the compacting filter is the Java-only filter followed by folding runs. */
  lemma {:induction false} CompactedOfJavaOnly(stack: seq<string>, isCompactClass: string -> bool, preClassIsCompact: bool)
    ensures Compacted(JavaOnlyFilter(stack), isCompactClass, preClassIsCompact) == Compacted(stack, isCompactClass, preClassIsCompact)
    decreases |stack|
  {
    if stack != [] {
      var info := stack[0];
      var rest := JavaOnlyFilter(stack[1..]);
      if IsJavaMethod(info) {
        assert JavaOnlyFilter(stack) == [info] + rest;
        assert JavaOnlyFilter(stack)[1..] == rest;
        match ClassName(info)
        case Failure(_) =>
        case Success(className) =>
          CompactedOfJavaOnly(stack[1..], isCompactClass, isCompactClass(className));
      } else {
        assert JavaOnlyFilter(stack) == rest;
        CompactedOfJavaOnly(stack[1..], isCompactClass, preClassIsCompact);
      }
    }
  }

  // ---------------------------------------------------------------------
  // Which frames compaction keeps
  // ---------------------------------------------------------------------

  /** The index of the last Java frame in `frames`, if there is one. */
  function LastJavaFrame(frames: seq<string>): (r: Option<nat>)
    ensures r.Some? ==> r.value < |frames| && IsJavaMethod(frames[r.value])
    ensures r.Some? ==> forall k :: r.value < k < |frames| ==> !IsJavaMethod(frames[k])
    ensures r.None? ==> forall k :: 0 <= k < |frames| ==> !IsJavaMethod(frames[k])
    decreases |frames|
  {
    if frames == [] then None
    else if IsJavaMethod(frames[|frames| - 1]) then Some(|frames| - 1)
    else LastJavaFrame(frames[..|frames| - 1])
  }

  /**
   * The value of `preClassIsCompact` once the loop has gone over `frames`
   * starting from `pre`: whether the last Java frame's class is compactable,
   * or `pre` when there is no Java frame.
   */
  function FlagAfter(frames: seq<string>, isCompactClass: string -> bool, pre: bool): bool
  {
    match LastJavaFrame(frames)
    case None => pre
    case Some(j) => IsCompactFrame(frames[j], isCompactClass)
  }

  lemma {:induction false} LastJavaFrameCons(f: string, frames: seq<string>)
    ensures LastJavaFrame([f] + frames)
            == match LastJavaFrame(frames)
               case Some(j) => Some(j + 1)
               case None => if IsJavaMethod(f) then Some(0) else None
    decreases |frames|
  {
    var g := [f] + frames;
    if frames != [] {
      assert g[|g| - 1] == frames[|frames| - 1];
      if !IsJavaMethod(frames[|frames| - 1]) {
        assert g[..|g| - 1] == [f] + frames[..|frames| - 1];
        LastJavaFrameCons(f, frames[..|frames| - 1]);
      }
    }
  }

  /** The flag after one more frame: set from that frame when it is a Java frame, unchanged otherwise. */
  lemma FlagAfterStep(stack: seq<string>, i: nat, isCompactClass: string -> bool, pre: bool)
    requires i < |stack|
    ensures FlagAfter(stack[..i + 1], isCompactClass, pre)
            == if IsJavaMethod(stack[i]) then IsCompactFrame(stack[i], isCompactClass) else FlagAfter(stack[..i], isCompactClass, pre)
  {
    assert stack[..i + 1][..i] == stack[..i];
    assert stack[..i + 1][i] == stack[i];
  }

  lemma FlagAfterCons(f: string, frames: seq<string>, isCompactClass: string -> bool, pre: bool)
    ensures FlagAfter([f] + frames, isCompactClass, pre)
            == FlagAfter(frames, isCompactClass, if IsJavaMethod(f) then IsCompactFrame(f, isCompactClass) else pre)
  {
    LastJavaFrameCons(f, frames);
    match LastJavaFrame(frames)
    case None =>
    case Some(j) => assert ([f] + frames)[j + 1] == frames[j];
  }

  /** One step of the loop: a Java frame in front of `rest`. */
  lemma CompactedCons(info: string, rest: seq<string>, isCompactClass: string -> bool, pre: bool)
    requires IsJavaMethod(info) && ClassName(info).Success?
    ensures Compacted([info] + rest, isCompactClass, pre)
            == Prepend(if IsCompactFrame(info, isCompactClass) && pre then [] else [info],
                       Compacted(rest, isCompactClass, IsCompactFrame(info, isCompactClass)))
  {
    assert ([info] + rest)[1..] == rest;
    var r := Compacted(rest, isCompactClass, IsCompactFrame(info, isCompactClass));
    if r.Success? {
      assert [] + r.value == r.value;
    }
  }

  /** A non-Java frame in front of `rest` is skipped and leaves the flag alone. */
  lemma CompactedSkip(info: string, rest: seq<string>, isCompactClass: string -> bool, pre: bool)
    requires !IsJavaMethod(info)
    ensures Compacted([info] + rest, isCompactClass, pre) == Compacted(rest, isCompactClass, pre)
  {
    assert ([info] + rest)[1..] == rest;
  }

  /** A Java frame without a class name in front of `rest` makes compaction fail. */
  lemma CompactedFail(info: string, rest: seq<string>, isCompactClass: string -> bool, pre: bool)
    requires IsJavaMethod(info) && ClassName(info).Failure?
    ensures Compacted([info] + rest, isCompactClass, pre) == Failure(ArrayIndexOutOfBounds(info))
  {
  }

  /**
   * Compacting two stacks one after the other is compacting the first, then
   * the second starting from the flag the first one leaves behind.
   */
  lemma {:induction false} CompactedAppend(p: seq<string>, q: seq<string>, isCompactClass: string -> bool, pre: bool)
    ensures Compacted(p + q, isCompactClass, pre)
            == Then(Compacted(p, isCompactClass, pre), Compacted(q, isCompactClass, FlagAfter(p, isCompactClass, pre)))
    decreases |p|
  {
    if p == [] {
      assert p + q == q;
      var b := Compacted(q, isCompactClass, pre);
      if b.Success? { assert [] + b.value == b.value; }
    } else {
      var f, p' := p[0], p[1..];
      assert p + q == [f] + (p' + q);
      assert p == [f] + p';
      FlagAfterCons(f, p', isCompactClass, pre);
      if !IsJavaMethod(f) {
        CompactedSkip(f, p' + q, isCompactClass, pre);
        CompactedSkip(f, p', isCompactClass, pre);
        CompactedAppend(p', q, isCompactClass, pre);
      } else if ClassName(f).Failure? {
        CompactedFail(f, p' + q, isCompactClass, pre);
        CompactedFail(f, p', isCompactClass, pre);
      } else {
        var c := IsCompactFrame(f, isCompactClass);
        CompactedCons(f, p' + q, isCompactClass, pre);
        CompactedCons(f, p', isCompactClass, pre);
        CompactedAppend(p', q, isCompactClass, c);
        var a := Compacted(p', isCompactClass, c);
        var b := Compacted(q, isCompactClass, FlagAfter(p', isCompactClass, c));
        if a.Success? && b.Success? {
          var k := if c && pre then [] else [f];
          AppendAssoc(k, a.value, b.value);
        }
      }
    }
  }

  /**
   * Whether compaction keeps the Java frame `stack[i]`: when its class is not
   * compactable, or when there is no Java frame before it, or when the
   * nearest Java frame before it (non-Java frames in between do not count)
   * has a class that is not compactable.
   */
  predicate KeptAt(stack: seq<string>, i: nat, isCompactClass: string -> bool)
    requires i < |stack|
  {
    !IsCompactFrame(stack[i], isCompactClass) ||
    match LastJavaFrame(stack[..i])
    case None => true
    case Some(j) => !IsCompactFrame(stack[j], isCompactClass)
  }

  /**
   * The compacted stack is the compaction of the frames before Java frame
   * `stack[i]`, then `stack[i]` exactly when `KeptAt` holds, then the
   * compaction of the frames after it.
   */
  lemma CompactedAt(stack: seq<string>, i: nat, isCompactClass: string -> bool)
    requires i < |stack| && IsJavaMethod(stack[i]) && ClassName(stack[i]).Success?
    ensures Compacted(stack, isCompactClass, false)
            == Then(Compacted(stack[..i], isCompactClass, false),
                    Prepend(if KeptAt(stack, i, isCompactClass) then [stack[i]] else [],
                            Compacted(stack[i + 1..], isCompactClass, IsCompactFrame(stack[i], isCompactClass))))
  {
    assert stack == stack[..i] + stack[i..];
    CompactedAppend(stack[..i], stack[i..], isCompactClass, false);
    assert stack[i..][0] == stack[i];
    assert stack[i..][1..] == stack[i + 1..];
    match LastJavaFrame(stack[..i])
    case None =>
    case Some(j) => assert stack[..i][j] == stack[j];
    var rest := Compacted(stack[i + 1..], isCompactClass, IsCompactFrame(stack[i], isCompactClass));
    if rest.Success? {
      assert [] + rest.value == rest.value;
    }
  }

  /** A and A2 compactable, B not, A3 compactable: A2 is folded into A and A3 is kept. */
  lemma CompactedExample(a: string, a2: string, b: string, a3: string, isCompactClass: string -> bool)
    requires IsJavaMethod(a) && IsJavaMethod(a2) && IsJavaMethod(b) && IsJavaMethod(a3)
    requires ClassName(a).Success? && ClassName(a2).Success? && ClassName(b).Success? && ClassName(a3).Success?
    requires IsCompactFrame(a, isCompactClass) && IsCompactFrame(a2, isCompactClass)
    requires !IsCompactFrame(b, isCompactClass) && IsCompactFrame(a3, isCompactClass)
    ensures Compacted([a, a2, b, a3], isCompactClass, false) == Success([a, b, a3])
  {
    var none: seq<string> := [];
    var s3 := [a3] + none;
    var s2 := [b] + s3;
    var s1 := [a2] + s2;
    CompactedCons(a3, none, isCompactClass, false);
    CompactedCons(b, s3, isCompactClass, true);
    CompactedCons(a2, s2, isCompactClass, true);
    CompactedCons(a, s1, isCompactClass, false);
    ListShapes(a, a2, b, a3);
  }

  /**
   * Sequence facts kept out of the lemmas above: stated there, among the
   * facts about `Compacted`, they exhaust the solver's resources.
   */
  lemma AppendAssoc(x: seq<string>, y: seq<string>, z: seq<string>)
    ensures x + (y + z) == (x + y) + z
  {
  }

  lemma ListShapes(a: string, a2: string, b: string, a3: string)
    ensures [a, a2, b, a3] == [a] + ([a2] + ([b] + ([a3] + [])))
    ensures [a, b, a3] == [a] + ([b] + ([a3] + []))
  {
  }


  // ---------------------------------------------------------------------
  // Compaction leaves no run behind and is idempotent
  // ---------------------------------------------------------------------

  /** No two neighbouring frames both have compactable classes. */
  predicate NoAdjacentCompact(frames: seq<string>, isCompactClass: string -> bool)
    decreases |frames|
  {
    |frames| < 2 ||
    ((!IsCompactFrame(frames[0], isCompactClass) || !IsCompactFrame(frames[1], isCompactClass))
     && NoAdjacentCompact(frames[1..], isCompactClass))
  }

  /**
   * The compacted stack holds no two neighbouring compactable frames, and when
   * it starts after a compactable frame, it does not start with one.
   */
  lemma {:induction false} CompactedNoAdjacent(stack: seq<string>, isCompactClass: string -> bool, preClassIsCompact: bool)
    ensures var r := Compacted(stack, isCompactClass, preClassIsCompact);
            r.Success? ==> NoAdjacentCompact(r.value, isCompactClass)
    ensures var r := Compacted(stack, isCompactClass, preClassIsCompact);
            r.Success? && preClassIsCompact && r.value != [] ==> !IsCompactFrame(r.value[0], isCompactClass)
    decreases |stack|
  {
    if stack != [] {
      var info := stack[0];
      if !IsJavaMethod(info) {
        CompactedNoAdjacent(stack[1..], isCompactClass, preClassIsCompact);
      } else {
        match ClassName(info)
        case Failure(_) =>
        case Success(className) =>
          var isCompact := isCompactClass(className);
          CompactedNoAdjacent(stack[1..], isCompactClass, isCompact);
          var rest := Compacted(stack[1..], isCompactClass, isCompact);
          if rest.Success? && !(isCompact && preClassIsCompact) {
            assert ([info] + rest.value)[1..] == rest.value;
          }
      }
    }
  }

  /** A stack of Java frames with no run of compactable classes is left as it is. */
  lemma {:induction false} CompactedFixedPoint(frames: seq<string>, isCompactClass: string -> bool, preClassIsCompact: bool)
    requires forall f :: f in frames ==> IsJavaMethod(f) && ClassName(f).Success?
    requires NoAdjacentCompact(frames, isCompactClass)
    requires preClassIsCompact && frames != [] ==> !IsCompactFrame(frames[0], isCompactClass)
    ensures Compacted(frames, isCompactClass, preClassIsCompact) == Success(frames)
    decreases |frames|
  {
    if frames != [] {
      var f := frames[0];
      assert f in frames;
      var isCompact := IsCompactFrame(f, isCompactClass);
      var tail := frames[1..];
      forall g | g in tail ensures IsJavaMethod(g) && ClassName(g).Success? {
        assert g in frames;
      }
      if |frames| >= 2 {
        assert tail[0] == frames[1];
      }
      CompactedFixedPoint(tail, isCompactClass, isCompact);
      assert frames == [f] + tail;
    }
  }

  /** Compacting a compacted stack changes nothing. */
  lemma CompactedIdempotent(stack: seq<string>, isCompactClass: string -> bool)
    ensures var r := Compacted(stack, isCompactClass, false);
            r.Success? ==> Compacted(r.value, isCompactClass, false) == r
  {
    var r := Compacted(stack, isCompactClass, false);
    if r.Success? {
      CompactedNoAdjacent(stack, isCompactClass, false);
      CompactedFixedPoint(r.value, isCompactClass, false);
    }
  }
}
