/**
 The colored 4-bit passthrough source
 (LibDmd/Input/Passthrough/PassthroughColoredGray4Source.cs). Frames pushed
 into it are forwarded to its subscribers unless the frame equals the last one
 and the last format published was ColoredGray4.

 The model is generic in the frame type `F`; ColoredFrame's equality operator
 is passed in as `same`. Observable streams are sequences of what was pushed.
 */
module Passthrough {

  /** The frame formats of LibDmd; only ColoredGray4 and ColoredGray6 matter here. */
  datatype FrameFormat = Gray2 | Gray4 | Rgb24 | Bitmap | ColoredGray2 | ColoredGray4 | ColoredGray6 | AlphaNumeric

  /**
   The source's state: the retained last frame, the current value of the
   shared last-format subject, everything pushed to that subject and to the
   frames stream, and everything pushed to the pause and resume streams.
   */
  datatype Source<F> = Source(lastFrame: F, lastFormat: FrameFormat, formats: seq<FrameFormat>,
                              frames: seq<F>, pauses: nat, resumes: nat)

  /** The constructor: a blank last frame; the shared format subject holds whatever it holds. */
  function New<F>(blank: F, lastFormat: FrameFormat): (s: Source<F>)
    ensures s.frames == [] && s.formats == [] && s.pauses == 0 && s.resumes == 0
    ensures s.lastFrame == blank && s.lastFormat == lastFormat
  {
    Source(blank, lastFormat, [], [], 0, 0)
  }

  /** Whether NextFrame drops `frame`: a repeat while the last format is ColoredGray4. */
  predicate Drops<F>(s: Source<F>, frame: F, same: (F, F) -> bool)
  {
    s.lastFormat == ColoredGray4 && same(s.lastFrame, frame)
  }

  /**
   NextFrame with the format it publishes as a parameter: drop a repeat,
   otherwise remember the frame, publish `recorded` as the last format, and
   forward the frame.
   */
  function Step<F>(s: Source<F>, frame: F, same: (F, F) -> bool, recorded: FrameFormat): (r: Source<F>)
    ensures Drops(s, frame, same) ==> r == s
    ensures !Drops(s, frame, same) ==>
              && r.frames == s.frames + [frame] && r.formats == s.formats + [recorded]
              && r.lastFrame == frame && r.lastFormat == recorded
    ensures r.pauses == s.pauses && r.resumes == s.resumes
  {
    if Drops(s, frame, same) then s
    else s.(lastFrame := frame, lastFormat := recorded,
            formats := s.formats + [recorded], frames := s.frames + [frame])
  }

  /** NextFrame as written: it publishes ColoredGray6 after forwarding a frame. */
  function NextFrame<F>(s: Source<F>, frame: F, same: (F, F) -> bool): (r: Source<F>)
    ensures Drops(s, frame, same) ==> r == s
    ensures !Drops(s, frame, same) ==> r.frames == s.frames + [frame] && r.lastFormat == ColoredGray6
  {
    Step(s, frame, same, ColoredGray6)
  }

  /** NextFrame as evidently intended: it publishes ColoredGray4, the format it forwards. */
  function NextFrameIntended<F>(s: Source<F>, frame: F, same: (F, F) -> bool): (r: Source<F>)
    ensures Drops(s, frame, same) ==> r == s
    ensures !Drops(s, frame, same) ==> r.frames == s.frames + [frame] && r.lastFormat == ColoredGray4
  {
    Step(s, frame, same, ColoredGray4)
  }

  /** Another source sharing the format subject publishes `format`. */
  function PublishFormat<F>(s: Source<F>, format: FrameFormat): (r: Source<F>)
    ensures r.lastFormat == format && r.formats == s.formats + [format]
    ensures r.frames == s.frames && r.lastFrame == s.lastFrame
  {
    s.(lastFormat := format, formats := s.formats + [format])
  }

  /**
   Feed `inputs` in order to NextFrame (recording `recorded`). Forwarding only
   appends inputs to the frames stream, one published format per forwarded
   frame; the last one forwarded is the retained frame; and a run that
   forwards nothing leaves the source exactly as it was.
   */
  function Run<F>(s: Source<F>, inputs: seq<F>, same: (F, F) -> bool, recorded: FrameFormat): (r: Source<F>)
    decreases |inputs|
    ensures |s.frames| <= |r.frames| <= |s.frames| + |inputs|
    ensures forall i :: 0 <= i < |s.frames| ==> r.frames[i] == s.frames[i]
    ensures forall i :: |s.frames| <= i < |r.frames| ==> r.frames[i] in inputs
    ensures |r.formats| - |s.formats| == |r.frames| - |s.frames|
    ensures |r.frames| == |s.frames| ==> r == s
    ensures |r.frames| > |s.frames| ==> r.lastFrame == r.frames[|r.frames| - 1] && r.lastFormat == recorded
    ensures r.pauses == s.pauses && r.resumes == s.resumes
  {
    if inputs == [] then s
    else Step(Run(s, inputs[..|inputs| - 1], same, recorded), inputs[|inputs| - 1], same, recorded)
  }

  /** `a` is `b` with some elements removed, order kept. */
  ghost predicate SubsequenceOf<T>(a: seq<T>, b: seq<T>)
    decreases |b|
  {
    if a == [] then true
    else if b == [] then false
    else (a[|a| - 1] == b[|b| - 1] && SubsequenceOf(a[..|a| - 1], b[..|b| - 1]))
         || SubsequenceOf(a, b[..|b| - 1])
  }

  /**
   What a run forwards is a subsequence of its inputs, appended to what had
   been forwarded before; the pause and resume streams never emit.
   */
  lemma {:induction false} RunForwardsSubsequence<F>(s: Source<F>, inputs: seq<F>, same: (F, F) -> bool,
                                                     recorded: FrameFormat)
    returns (forwarded: seq<F>)
    decreases |inputs|
    ensures Run(s, inputs, same, recorded).frames == s.frames + forwarded
    ensures SubsequenceOf(forwarded, inputs)
    ensures Run(s, inputs, same, recorded).pauses == s.pauses
    ensures Run(s, inputs, same, recorded).resumes == s.resumes
  {
    if inputs == [] {
      forwarded := [];
    } else {
      var init := inputs[..|inputs| - 1];
      var x := inputs[|inputs| - 1];
      var before := RunForwardsSubsequence(s, init, same, recorded);
      var mid := Run(s, init, same, recorded);
      assert Run(s, inputs, same, recorded) == Step(mid, x, same, recorded);
      if Drops(mid, x, same) {
        forwarded := before;
        if before != [] {
          assert inputs[..|inputs| - 1] == init;
        }
      } else {
        forwarded := before + [x];
        assert forwarded[..|forwarded| - 1] == before;
        assert inputs[..|inputs| - 1] == init;
      }
    }
  }

  /**
   As written, de-duplication never fires unless some other source publishes
   ColoredGray4: from a state whose last format is not ColoredGray4, every
   input is forwarded.
   */
  lemma {:induction false} RunForwardsEverything<F>(s: Source<F>, inputs: seq<F>, same: (F, F) -> bool)
    requires s.lastFormat != ColoredGray4
    decreases |inputs|
    ensures Run(s, inputs, same, ColoredGray6).frames == s.frames + inputs
    ensures Run(s, inputs, same, ColoredGray6).lastFormat != ColoredGray4
  {
    if inputs != [] {
      var init := inputs[..|inputs| - 1];
      var x := inputs[|inputs| - 1];
      RunForwardsEverything(s, init, same);
      var mid := Run(s, init, same, ColoredGray6);
      assert !Drops(mid, x, same);
      assert Run(s, inputs, same, ColoredGray6).frames == mid.frames + [x];
      assert s.frames + init + [x] == s.frames + inputs;
    }
  }

  /**
   As written, the same frame pushed twice in a row is forwarded twice, even
   when the source starts out with ColoredGray4 as the last format.
   */
  lemma RepeatForwardedTwice<F>(s: Source<F>, frame: F, same: (F, F) -> bool)
    requires !Drops(s, frame, same)
    ensures NextFrame(NextFrame(s, frame, same), frame, same).frames == s.frames + [frame, frame]
  {
  }

  /**
   A state as the intended NextFrame leaves it: once something has been
   forwarded, the last format is ColoredGray4 and the retained frame is the
   last one forwarded; and no two consecutive forwarded frames are equal.
   */
  ghost predicate Deduplicated<F>(s: Source<F>, same: (F, F) -> bool)
  {
    && (s.frames != [] ==> s.lastFormat == ColoredGray4 && s.lastFrame == s.frames[|s.frames| - 1])
    && forall i :: 0 <= i < |s.frames| - 1 ==> !same(s.frames[i], s.frames[i + 1])
  }

  /** With the intended NextFrame, consecutive forwarded frames always differ. */
  lemma {:induction false} IntendedRunDeduplicates<F>(s: Source<F>, inputs: seq<F>, same: (F, F) -> bool)
    requires Deduplicated(s, same)
    decreases |inputs|
    ensures Deduplicated(Run(s, inputs, same, ColoredGray4), same)
  {
    if inputs != [] {
      var init := inputs[..|inputs| - 1];
      var x := inputs[|inputs| - 1];
      IntendedRunDeduplicates(s, init, same);
      var mid := Run(s, init, same, ColoredGray4);
      var r := Step(mid, x, same, ColoredGray4);
      if !Drops(mid, x, same) {
        assert r.frames == mid.frames + [x];
        forall i | 0 <= i < |r.frames| - 1
          ensures !same(r.frames[i], r.frames[i + 1])
        {
          if i < |mid.frames| - 1 {
            assert r.frames[i] == mid.frames[i] && r.frames[i + 1] == mid.frames[i + 1];
          } else {
            assert r.frames[i] == mid.lastFrame && r.frames[i + 1] == x;
          }
        }
      }
    }
  }

  /** The intended NextFrame drops an immediate repeat once a frame has been forwarded. */
  lemma IntendedDropsRepeat<F>(s: Source<F>, frame: F, same: (F, F) -> bool)
    requires same(frame, frame)
    requires !Drops(s, frame, same)
    ensures NextFrameIntended(NextFrameIntended(s, frame, same), frame, same).frames == s.frames + [frame]
  {
  }
}
