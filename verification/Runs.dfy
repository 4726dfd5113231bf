/**
 Whole runs of the provider: any sequence of calls on any data.
 */
module Runs {
  import opened Basics
  import opened Bytes
  import opened MachineIntegers
  import opened Characters
  import opened EscapedStrings
  import opened RangedIntegers
  import opened Calls
  import opened Encoding

  /** A run is cut short by an abort, or gives its answers having taken bytes off both ends. */
  datatype RunResult = Died | Finished(answers: seq<Answer>, front: nat, back: nat)

  /** The run `rest` after a run that has given `answers` and taken `front` and `back`. */
  function After(answers: seq<Answer>, front: nat, back: nat, rest: RunResult): RunResult {
    match rest
    case Died => Died
    case Finished(answers', f, b) => Finished(answers + answers', front + f, back + b)
  }

  function Run(model: CharModel, calls: seq<Call>, w: seq<byte>): (r: RunResult)
    ensures r.Finished? ==> |r.answers| == |calls| && r.front + r.back <= |w|
  {
    if calls == [] then Finished([], 0, 0)
    else
      match Step(model, calls[0], w)
      case Aborted => Died
      case Returned(a, f, b) => After([a], f, b, Run(model, calls[1..], Inner(w, f, b)))
  }

  /** No call of the script asks how many bytes remain. */
  predicate NoSizeQueries(calls: seq<Call>) {
    forall i :: 0 <= i < |calls| ==> !calls[i].RemainingBytes?
  }

  /** The run finished and did not use all of the data. */
  predicate Spare(r: RunResult, w: seq<byte>) {
    r.Finished? && r.front + r.back < |w|
  }

  // ------------------------------------------------------------------------
  // Round trip
  // ------------------------------------------------------------------------

  predicate LegalAnswers(model: CharModel, calls: seq<Call>, answers: seq<Answer>) {
    && |answers| == |calls|
    && forall i :: 0 <= i < |calls| ==> Legal(model, calls[i], answers[i])
  }

  /** The front of the data for a script: the codes in order. */
  function FrontCodes(model: CharModel, calls: seq<Call>, answers: seq<Answer>, x: byte): seq<byte>
    requires LegalAnswers(model, calls, answers)
  {
    if calls == [] then []
    else FrontCode(model, calls[0], answers[0], x) + FrontCodes(model, calls[1..], answers[1..], x)
  }

  /** The back of the data for a script: the codes in reverse order. */
  function BackCodes(model: CharModel, calls: seq<Call>, answers: seq<Answer>): seq<byte>
    requires LegalAnswers(model, calls, answers)
  {
    if calls == [] then []
    else BackCodes(model, calls[1..], answers[1..]) + BackCode(model, calls[0], answers[0])
  }

  lemma {:induction false} Nesting(f: seq<byte>, inner: seq<byte>, b: seq<byte>)
    ensures Inner(f + inner + b, |f|, |b|) == inner
  {
  }

  lemma {:induction false} Peeling(f: seq<byte>, fs: seq<byte>, mid: seq<byte>, bs: seq<byte>, b: seq<byte>)
    ensures (f + fs) + mid + (bs + b) == f + (fs + mid + bs) + b
  {
  }

  /** The data for a script: its two codes around `mid`. */
  function Data(model: CharModel, calls: seq<Call>, answers: seq<Answer>, x: byte, mid: seq<byte>): seq<byte>
    requires LegalAnswers(model, calls, answers)
  {
    FrontCodes(model, calls, answers, x) + mid + BackCodes(model, calls, answers)
  }

  /** Running `calls` on `w` comes, with `answers` and having taken `f` and `b`, to running `more` on `rest`. */
  ghost predicate Reaches(model: CharModel, calls: seq<Call>, w: seq<byte>, answers: seq<Answer>, f: nat, b: nat,
                          more: seq<Call>, rest: seq<byte>) {
    Run(model, calls, w) == After(answers, f, b, Run(model, more, rest))
  }

  /**
   Round trip, going on: on the data for a script, the script gives its answers and whatever is
   called next finds exactly the middle.
   */
  lemma {:induction false} ScriptRoundTripThen(model: CharModel, calls: seq<Call>, answers: seq<Answer>, x: byte,
                                               mid: seq<byte>, more: seq<Call>)
    requires LegalAnswers(model, calls, answers) && NoSizeQueries(calls) && x != BACKSLASH
    ensures Reaches(model, calls + more, Data(model, calls, answers, x, mid), answers,
                    |FrontCodes(model, calls, answers, x)|, |BackCodes(model, calls, answers)|, more, mid)
  {
    if calls == [] {
      assert calls + more == more && Data(model, calls, answers, x, mid) == mid;
      AfterNothing(Run(model, more, mid));
    } else {
      FirstCall(model, calls, answers, x, mid);
      ScriptRoundTripThen(model, calls[1..], answers[1..], x, mid, more);
      ReachesBehindAll(model, calls, Data(model, calls, answers, x, mid), answers,
                       |FrontCode(model, calls[0], answers[0], x)|, |BackCode(model, calls[0], answers[0])|,
                       |FrontCodes(model, calls[1..], answers[1..], x)|, |BackCodes(model, calls[1..], answers[1..])|,
                       more, mid);
    }
  }

  /** One call more in front. */
  lemma {:induction false} ReachesBehind(model: CharModel, calls: seq<Call>, w: seq<byte>, a: Answer, answers: seq<Answer>,
                                         f: nat, b: nat, f': nat, b': nat, more: seq<Call>, rest: seq<byte>)
    requires calls != []
    requires Step(model, calls[0], w) == Returned(a, f, b)
    requires Reaches(model, calls[1..] + more, Inner(w, f, b), answers, f', b', more, rest)
    ensures Reaches(model, calls + more, w, [a] + answers, f + f', b + b', more, rest)
  {
    assert calls + more == [calls[0]] + (calls[1..] + more);
    RunCons(model, calls[0], calls[1..] + more, w);
    AfterAfter([a], f, b, answers, f', b', Run(model, more, rest));
  }

  lemma {:induction false} ReachesBehindAll(model: CharModel, calls: seq<Call>, w: seq<byte>, answers: seq<Answer>,
                                            f: nat, b: nat, f': nat, b': nat, more: seq<Call>, rest: seq<byte>)
    requires calls != [] && answers != []
    requires Step(model, calls[0], w) == Returned(answers[0], f, b)
    requires Reaches(model, calls[1..] + more, Inner(w, f, b), answers[1..], f', b', more, rest)
    ensures Reaches(model, calls + more, w, answers, f + f', b + b', more, rest)
  {
    ReachesBehind(model, calls, w, answers[0], answers[1..], f, b, f', b', more, rest);
    assert answers == [answers[0]] + answers[1..];
  }

  /** The first call of a script finds its answer, and leaves the data for the others. */
  lemma {:induction false} FirstCall(model: CharModel, calls: seq<Call>, answers: seq<Answer>, x: byte, mid: seq<byte>)
    requires calls != [] && LegalAnswers(model, calls, answers) && NoSizeQueries(calls) && x != BACKSLASH
    ensures var w, o := Data(model, calls, answers, x, mid), Step(model, calls[0], Data(model, calls, answers, x, mid));
            && o == Returned(answers[0], |FrontCode(model, calls[0], answers[0], x)|, |BackCode(model, calls[0], answers[0])|)
            && Inner(w, o.front, o.back) == Data(model, calls[1..], answers[1..], x, mid)
  {
    var f, b := FrontCode(model, calls[0], answers[0], x), BackCode(model, calls[0], answers[0]);
    var fs, bs := FrontCodes(model, calls[1..], answers[1..], x), BackCodes(model, calls[1..], answers[1..]);
    var inner := fs + mid + bs;
    StepRoundTrip(model, calls[0], answers[0], x, inner);
    Peeling(f, fs, mid, bs, b);
    Nesting(f, inner, b);
  }

  lemma {:induction false} AfterNothing(r: RunResult)
    ensures After([], 0, 0, r) == r
  {
    if r.Finished? {
      assert [] + r.answers == r.answers;
    }
  }

  lemma {:induction false} AfterAfter(answers: seq<Answer>, f: nat, b: nat, answers': seq<Answer>, f': nat, b': nat, rest: RunResult)
    ensures After(answers, f, b, After(answers', f', b', rest)) == After(answers + answers', f + f', b + b', rest)
  {
    if rest.Finished? {
      assert answers + (answers' + rest.answers) == (answers + answers') + rest.answers;
    }
  }

  /**
   Whole-script round trip: data can be written for every script and every choice of legal
   answers, with anything left over in the middle.
   */
  lemma {:induction false} ScriptRoundTrip(model: CharModel, calls: seq<Call>, answers: seq<Answer>, x: byte, mid: seq<byte>)
    requires LegalAnswers(model, calls, answers) && NoSizeQueries(calls) && x != BACKSLASH
    ensures var f, b := FrontCodes(model, calls, answers, x), BackCodes(model, calls, answers);
            Run(model, calls, f + mid + b) == Finished(answers, |f|, |b|)
  {
    ScriptRoundTripThen(model, calls, answers, x, mid, []);
    assert calls + [] == calls && answers + [] == answers;
  }

  /**
   The same for scripts that then take all the rest, as bytes or as text: the rest is the middle,
   and calls behind that find no more data.
   */
  lemma {:induction false} RestRoundTrip(model: CharModel, calls: seq<Call>, answers: seq<Answer>, x: byte,
                                         mid: seq<byte>, rest: Call, more: seq<Call>)
    requires LegalAnswers(model, calls, answers) && NoSizeQueries(calls) && x != BACKSLASH
    requires (rest.ConsumeRemainingBytes? || rest.ConsumeRemainingBytesAsString?) && GoodArguments(more)
    ensures var f, b := FrontCodes(model, calls, answers, x), BackCodes(model, calls, answers);
            var answer := if rest.ConsumeRemainingBytes? then Bytes(mid) else Text(Chars(model, mid));
            Run(model, calls + ([rest] + more), f + mid + b) ==
            Finished(answers + ([answer] + Defaults(more)), |f| + |mid|, |b|)
  {
    ScriptRoundTripThen(model, calls, answers, x, mid, [rest] + more);
    RestTakesAll(model, rest, more, mid);
  }

  lemma {:induction false} RestTakesAll(model: CharModel, rest: Call, more: seq<Call>, w: seq<byte>)
    requires (rest.ConsumeRemainingBytes? || rest.ConsumeRemainingBytesAsString?) && GoodArguments(more)
    ensures Run(model, [rest] + more, w) ==
            Finished([if rest.ConsumeRemainingBytes? then Bytes(w) else Text(Chars(model, w))] + Defaults(more), |w|, 0)
  {
    RunCons(model, rest, more, w);
    assert Inner(w, |w|, 0) == [];
    ExhaustionIsAbsorbing(model, more);
  }

  lemma {:induction false} SpareRunIsLegal(model: CharModel, calls: seq<Call>, w: seq<byte>)
    requires Spare(Run(model, calls, w), w)
    ensures LegalAnswers(model, calls, Run(model, calls, w).answers)
  {
    if calls != [] {
      var o := Step(model, calls[0], w);
      StepIsLegal(model, calls[0], w);
      SpareRunIsLegal(model, calls[1..], Inner(w, o.front, o.back));
    }
  }

  /** The script gives these answers on `w` with bytes to spare. */
  ghost predicate GivesWithSpare(model: CharModel, calls: seq<Call>, answers: seq<Answer>, w: seq<byte>) {
    Spare(Run(model, calls, w), w) && Run(model, calls, w).answers == answers
  }

  /** What a script can answer without using up its data: exactly the legal answers. */
  lemma {:induction false} AchievableIffLegal(model: CharModel, calls: seq<Call>, answers: seq<Answer>)
    requires NoSizeQueries(calls)
    ensures (exists w :: GivesWithSpare(model, calls, answers, w)) <==> LegalAnswers(model, calls, answers)
  {
    forall w | GivesWithSpare(model, calls, answers, w)
      ensures LegalAnswers(model, calls, answers)
    {
      SpareRunIsLegal(model, calls, w);
    }
    if LegalAnswers(model, calls, answers) {
      ScriptRoundTrip(model, calls, answers, 0, [0]);
      var w := FrontCodes(model, calls, answers, 0) + [0] + BackCodes(model, calls, answers);
      assert GivesWithSpare(model, calls, answers, w);
    }
  }

  // ------------------------------------------------------------------------
  // Locality
  // ------------------------------------------------------------------------

  /** Ends that are the same stay the same inside. */
  lemma {:induction false} InnerSameEnds(w: seq<byte>, w': seq<byte>, f: nat, b: nat, f': nat, b': nat)
    requires SameEnds(w, w', f + f', b + b')
    ensures SameEnds(w, w', f, b)
    ensures SameEnds(Inner(w, f, b), Inner(w', f, b), f', b')
  {
    assert w'[..f] == w'[..f + f'][..f] == w[..f + f'][..f] == w[..f];
    var s, s' := w[|w| - (b + b')..], w'[|w'| - (b + b')..];
    assert w'[|w'| - b..] == s'[b'..] == s[b'..] == w[|w| - b..];
    assert Inner(w', f, b)[..f'] == w'[..f + f'][f..] == w[..f + f'][f..] == Inner(w, f, b)[..f'];
    var n, n' := |Inner(w, f, b)|, |Inner(w', f, b)|;
    assert Inner(w', f, b)[n' - b'..] == s'[..b'] == s[..b'] == Inner(w, f, b)[n - b'..];
  }

  /**
   A run that leaves bytes over depends only on the bytes it took: on any data with the same two
   ends, however long or short in between, the answers are the same and the same is taken.
   */
  lemma {:induction false} RunIsLocal(model: CharModel, calls: seq<Call>, w: seq<byte>, w': seq<byte>)
    requires NoSizeQueries(calls)
    requires var r := Run(model, calls, w); Spare(r, w) && SameEnds(w, w', r.front, r.back)
    ensures Run(model, calls, w') == Run(model, calls, w)
  {
    if calls != [] {
      var o := Step(model, calls[0], w);
      var rest := Run(model, calls[1..], Inner(w, o.front, o.back));
      InnerSameEnds(w, w', o.front, o.back, rest.front, rest.back);
      StepIsLocal(model, calls[0], w, w');
      RunIsLocal(model, calls[1..], Inner(w, o.front, o.back), Inner(w', o.front, o.back));
    }
  }

  /** The same, with the middle of the data replaced. */
  lemma {:induction false} MiddleIsFree(model: CharModel, calls: seq<Call>, f: seq<byte>, m: seq<byte>, m': seq<byte>, b: seq<byte>)
    requires NoSizeQueries(calls) && m != []
    requires var r := Run(model, calls, f + m + b); r.Finished? && r.front == |f| && r.back == |b|
    ensures Run(model, calls, f + m' + b) == Run(model, calls, f + m + b)
    ensures Inner(f + m' + b, |f|, |b|) == m'
  {
    var w, w' := f + m + b, f + m' + b;
    assert w[..|f|] == f == w'[..|f|] && w[|w| - |b|..] == b == w'[|w'| - |b|..];
    RunIsLocal(model, calls, w, w');
  }

  // ------------------------------------------------------------------------
  // The two ends are independent
  // ------------------------------------------------------------------------

  datatype Side = Front | Back

  predicate OnSide(c: Call, side: Side) {
    if side.Front? then c.ReadsFront() else c.ReadsBack()
  }

  /** The calls of a script that read from one side. */
  function CallsOn(side: Side, calls: seq<Call>): (s: seq<Call>)
    ensures NoSizeQueries(s)
  {
    if calls == [] then []
    else if OnSide(calls[0], side) then [calls[0]] + CallsOn(side, calls[1..])
    else CallsOn(side, calls[1..])
  }

  /** The answers to those calls. */
  function AnswersOn(side: Side, calls: seq<Call>, answers: seq<Answer>): seq<Answer>
    requires |answers| == |calls|
  {
    if calls == [] then []
    else if OnSide(calls[0], side) then [answers[0]] + AnswersOn(side, calls[1..], answers[1..])
    else AnswersOn(side, calls[1..], answers[1..])
  }

  /** Taking from one end leaves the other end as it was. */
  lemma {:induction false} OtherEnd(w: seq<byte>, f: nat, b: nat)
    requires f + b <= |w|
    ensures SameEnds(w, Inner(w, f, 0), 0, b) && SameEnds(Inner(w, f, 0), w, 0, b)
    ensures SameEnds(w, Inner(w, 0, b), f, 0) && SameEnds(Inner(w, 0, b), w, f, 0)
  {
    var u, v := Inner(w, f, 0), Inner(w, 0, b);
    assert u[|u| - b..] == w[|w| - b..];
    assert v[..f] == w[..f];
  }

  /** The first call followed by a run. */
  lemma {:induction false} RunCons(model: CharModel, c: Call, calls: seq<Call>, w: seq<byte>)
    ensures var o := Step(model, c, w);
            Run(model, [c] + calls, w) ==
            if o.Aborted? then Died
            else After([o.answer], o.front, o.back, Run(model, calls, Inner(w, o.front, o.back)))
  {
    assert ([c] + calls)[1..] == calls;
  }

  /** What remains of the run `r` when only the calls on one side are made. */
  function Alone(side: Side, calls: seq<Call>, r: RunResult): RunResult
    requires r.Finished? && |r.answers| == |calls|
  {
    if side.Front? then Finished(AnswersOn(Front, calls, r.answers), r.front, 0)
    else Finished(AnswersOn(Back, calls, r.answers), 0, r.back)
  }

  /**
   When a script leaves bytes over, its front calls run by themselves give their answers and take
   the same from the front; and so do its back calls at the back.
   */
  lemma {:induction false} RunProjects(model: CharModel, side: Side, calls: seq<Call>, w: seq<byte>)
    requires NoSizeQueries(calls) && Spare(Run(model, calls, w), w)
    ensures Run(model, CallsOn(side, calls), w) == Alone(side, calls, Run(model, calls, w))
  {
    if calls != [] {
      var c, rest := calls[0], calls[1..];
      var o := Step(model, c, w);
      var w' := Inner(w, o.front, o.back);
      var r := Run(model, rest, w');
      RunProjects(model, side, rest, w');
      if OnSide(c, side) {
        RunCons(model, c, CallsOn(side, rest), w);
      } else {
        if side.Front? {
          OtherEnd(w, r.front, o.back);
        } else {
          OtherEnd(w, o.front, r.back);
        }
        RunIsLocal(model, CallsOn(side, rest), w', w);
      }
    }
  }

  /** The run `r` gives the answers of `front` and `back` to its front and back calls, and takes what they take. */
  ghost predicate Merged(r: RunResult, calls: seq<Call>, front: RunResult, back: RunResult) {
    && r.Finished? && front.Finished? && back.Finished?
    && |r.answers| == |calls|
    && r.front == front.front
    && r.back == back.back
    && AnswersOn(Front, calls, r.answers) == front.answers
    && AnswersOn(Back, calls, r.answers) == back.answers
  }

  /**
   Conversely, whenever the front calls and the back calls of a script can both run on the data
   without meeting, the script itself runs and its answers are theirs.
   */
  lemma {:induction false} RunMerges(model: CharModel, calls: seq<Call>, w: seq<byte>)
    requires NoSizeQueries(calls)
    requires var front, back := Run(model, CallsOn(Front, calls), w), Run(model, CallsOn(Back, calls), w);
             front.Finished? && back.Finished? && front.front + back.back <= |w|
    ensures Merged(Run(model, calls, w), calls,
                   Run(model, CallsOn(Front, calls), w), Run(model, CallsOn(Back, calls), w))
  {
    OneSideOnly(model, Front, calls, w);
    OneSideOnly(model, Back, calls, w);
    if calls != [] {
      var c, rest := calls[0], calls[1..];
      var o := Step(model, c, w);
      if c.ReadsFront() {
        RunCons(model, c, CallsOn(Front, rest), w);
        RunOnWhatIsLeft(model, CallsOn(Back, rest), w, o.front, 0);
      } else {
        RunCons(model, c, CallsOn(Back, rest), w);
        RunOnWhatIsLeft(model, CallsOn(Front, rest), w, 0, o.back);
      }
      RunMerges(model, rest, Inner(w, o.front, o.back));
    }
  }

  /** A run that leaves one end alone does the same when bytes that it does not need are gone from there. */
  lemma {:induction false} RunOnWhatIsLeft(model: CharModel, calls: seq<Call>, w: seq<byte>, f: nat, b: nat)
    requires NoSizeQueries(calls) && Run(model, calls, w).Finished?
    requires var r := Run(model, calls, w);
             (b == 0 && r.front == 0 && f + r.back <= |w|) || (f == 0 && r.back == 0 && r.front + b <= |w|)
    ensures Run(model, calls, Inner(w, f, b)) == Run(model, calls, w)
  {
    var r := Run(model, calls, w);
    if f + b == 0 {
      assert Inner(w, 0, 0) == w;
    } else {
      if b == 0 {
        OtherEnd(w, f, r.back);
      } else {
        OtherEnd(w, r.front, b);
      }
      RunIsLocal(model, calls, w, Inner(w, f, b));
    }
  }

  /** Calls on one side leave the other side alone. */
  lemma {:induction false} OneSideOnly(model: CharModel, side: Side, calls: seq<Call>, w: seq<byte>)
    ensures var r := Run(model, CallsOn(side, calls), w);
            r.Finished? ==> (if side.Front? then r.back == 0 else r.front == 0)
  {
    if calls != [] {
      if OnSide(calls[0], side) {
        var o := Step(model, calls[0], w);
        RunCons(model, calls[0], CallsOn(side, calls[1..]), w);
        if o.Returned? {
          OneSideOnly(model, side, calls[1..], Inner(w, o.front, o.back));
        }
      } else {
        OneSideOnly(model, side, calls[1..], w);
      }
    }
  }

  /** The two runs take the same bytes and give the same answers to their front and to their back calls. */
  ghost predicate SameUpToOrder(calls: seq<Call>, r: RunResult, calls': seq<Call>, r': RunResult) {
    && r.Finished? && r'.Finished?
    && |r.answers| == |calls| && |r'.answers| == |calls'|
    && r'.front == r.front && r'.back == r.back
    && AnswersOn(Front, calls', r'.answers) == AnswersOn(Front, calls, r.answers)
    && AnswersOn(Back, calls', r'.answers) == AnswersOn(Back, calls, r.answers)
  }

  /**
   The order in which front calls and back calls are interleaved does not matter: two scripts
   with the same front calls and the same back calls give the same answers to them and take the
   same bytes, whenever the front calls alone and the back calls alone fit into the data together.
   */
  lemma {:induction false} InterleavingIsFree(model: CharModel, calls: seq<Call>, calls': seq<Call>, w: seq<byte>)
    requires NoSizeQueries(calls) && NoSizeQueries(calls')
    requires CallsOn(Front, calls) == CallsOn(Front, calls') && CallsOn(Back, calls) == CallsOn(Back, calls')
    requires var front, back := Run(model, CallsOn(Front, calls), w), Run(model, CallsOn(Back, calls), w);
             front.Finished? && back.Finished? && front.front + back.back <= |w|
    ensures SameUpToOrder(calls, Run(model, calls, w), calls', Run(model, calls', w))
  {
    RunMerges(model, calls, w);
    RunMerges(model, calls', w);
  }

  /** In particular, whenever one of the two scripts leaves bytes over. */
  lemma {:induction false} SpareInterleavingIsFree(model: CharModel, calls: seq<Call>, calls': seq<Call>, w: seq<byte>)
    requires NoSizeQueries(calls) && NoSizeQueries(calls')
    requires CallsOn(Front, calls) == CallsOn(Front, calls') && CallsOn(Back, calls) == CallsOn(Back, calls')
    requires Spare(Run(model, calls, w), w)
    ensures SameUpToOrder(calls, Run(model, calls, w), calls', Run(model, calls', w))
  {
    RunProjects(model, Front, calls, w);
    RunProjects(model, Back, calls, w);
    InterleavingIsFree(model, calls, calls', w);
  }

  // ------------------------------------------------------------------------
  // One script after another
  // ------------------------------------------------------------------------

  /** The first call of a run that finishes, and the run of the others. */
  lemma {:induction false} FinishedFirst(model: CharModel, calls: seq<Call>, w: seq<byte>)
    returns (a: Answer, f: nat, b: nat, r: RunResult)
    requires calls != [] && Run(model, calls, w).Finished?
    ensures Step(model, calls[0], w) == Returned(a, f, b) && f + b <= |w|
    ensures r.Finished? && r == Run(model, calls[1..], Inner(w, f, b))
    ensures Run(model, calls, w) == Finished([a] + r.answers, f + r.front, b + r.back)
  {
    var o := Step(model, calls[0], w);
    a, f, b, r := o.answer, o.front, o.back, Run(model, calls[1..], Inner(w, o.front, o.back));
  }

  /** A script in two parts: the second runs on what the first has left. */
  lemma {:induction false} RunsCompose(model: CharModel, calls: seq<Call>, more: seq<Call>, w: seq<byte>,
                                       r: RunResult, rest: seq<byte>)
    requires r == Run(model, calls, w) && r.Finished? && rest == Inner(w, r.front, r.back)
    ensures Reaches(model, calls + more, w, r.answers, r.front, r.back, more, rest)
    decreases |calls|
  {
    if calls == [] {
      assert calls + more == more && Inner(w, 0, 0) == w;
      AfterNothing(Run(model, more, w));
    } else {
      var a, f, b, r' := FinishedFirst(model, calls, w);
      InnerInner(w, f, b, r'.front, r'.back);
      RunsCompose(model, calls[1..], more, Inner(w, f, b), r', rest);
      ReachesBehind(model, calls, w, a, r'.answers, f, b, r'.front, r'.back, more, rest);
    }
  }

  /** The size that is reported at any point is the size of the data less all that was taken before. */
  lemma {:induction false} SizeIsWhatIsLeft(model: CharModel, calls: seq<Call>, more: seq<Call>, w: seq<byte>)
    requires Run(model, calls, w).Finished? && Run(model, calls + ([RemainingBytes] + more), w).Finished?
    ensures var r := Run(model, calls, w);
            Run(model, calls + ([RemainingBytes] + more), w).answers[|calls|] == Size(|w| - r.front - r.back)
  {
    var r := Run(model, calls, w);
    var rest := Inner(w, r.front, r.back);
    RunsCompose(model, calls, [RemainingBytes] + more, w, r, rest);
    RunCons(model, RemainingBytes, more, rest);
  }

  // ------------------------------------------------------------------------
  // Conservation
  // ------------------------------------------------------------------------

  /** The bytes that one call took. */
  datatype Taken = Taken(front: seq<byte>, back: seq<byte>)

  function Trace(model: CharModel, calls: seq<Call>, w: seq<byte>): (t: seq<Taken>)
    requires Run(model, calls, w).Finished?
    ensures |t| == |calls|
  {
    if calls == [] then []
    else
      var o := Step(model, calls[0], w);
      [Taken(w[..o.front], w[|w| - o.back..])] + Trace(model, calls[1..], Inner(w, o.front, o.back))
  }

  /** What was taken off the front, in the order of the calls. */
  function FrontTaken(t: seq<Taken>): seq<byte> {
    if t == [] then [] else t[0].front + FrontTaken(t[1..])
  }

  /** What was taken off the back, last call first. */
  function BackTaken(t: seq<Taken>): seq<byte> {
    if t == [] then [] else BackTaken(t[1..]) + t[0].back
  }

  /** Each call of the trace, run on nothing but the bytes it took, gives its answer and takes them all. */
  ghost predicate Accounted(model: CharModel, calls: seq<Call>, answers: seq<Answer>, t: seq<Taken>) {
    && |calls| == |answers| == |t|
    && forall i :: 0 <= i < |calls| ==>
         Step(model, calls[i], t[i].front + t[i].back) == Returned(answers[i], |t[i].front|, |t[i].back|)
  }

  /**
   Conservation. What the calls took, in order, and what is left make up the data: no byte is
   given out twice and none is lost. And each answer is fully explained by the bytes its own call
   took.
   */
  lemma {:induction false} RunConserves(model: CharModel, calls: seq<Call>, w: seq<byte>)
    requires NoSizeQueries(calls) && Run(model, calls, w).Finished?
    ensures var r, t := Run(model, calls, w), Trace(model, calls, w);
            && |FrontTaken(t)| == r.front
            && |BackTaken(t)| == r.back
            && FrontTaken(t) + Inner(w, r.front, r.back) + BackTaken(t) == w
            && Accounted(model, calls, r.answers, t)
  {
    BytesAreConserved(model, calls, w);
    AnswersAreAccounted(model, calls, w);
  }

  lemma {:induction false} BytesAreConserved(model: CharModel, calls: seq<Call>, w: seq<byte>)
    requires Run(model, calls, w).Finished?
    ensures var r, t := Run(model, calls, w), Trace(model, calls, w);
            && |FrontTaken(t)| == r.front
            && |BackTaken(t)| == r.back
            && FrontTaken(t) + Inner(w, r.front, r.back) + BackTaken(t) == w
  {
    if calls != [] {
      var o := Step(model, calls[0], w);
      var w' := Inner(w, o.front, o.back);
      var r', t' := Run(model, calls[1..], w'), Trace(model, calls[1..], w');
      BytesAreConserved(model, calls[1..], w');
      var first := Taken(w[..o.front], w[|w| - o.back..]);
      TakenCons(first, t');
      InnerInner(w, o.front, o.back, r'.front, r'.back);
      Peeling(first.front, FrontTaken(t'), Inner(w', r'.front, r'.back), BackTaken(t'), first.back);
      ThreeParts(w, o.front, o.back);
    }
  }

  lemma {:induction false} ThreeParts(w: seq<byte>, f: nat, b: nat)
    requires f + b <= |w|
    ensures w[..f] + Inner(w, f, b) + w[|w| - b..] == w
  {
  }

  lemma {:induction false} AnswersAreAccounted(model: CharModel, calls: seq<Call>, w: seq<byte>)
    requires NoSizeQueries(calls) && Run(model, calls, w).Finished?
    ensures Accounted(model, calls, Run(model, calls, w).answers, Trace(model, calls, w))
  {
    if calls != [] {
      var o := Step(model, calls[0], w);
      var w' := Inner(w, o.front, o.back);
      AnswersAreAccounted(model, calls[1..], w');
      StepOnItsOwn(model, calls[0], w);
      AccountedCons(model, calls, o.answer, Run(model, calls[1..], w').answers,
                    Taken(w[..o.front], w[|w| - o.back..]), Trace(model, calls[1..], w'));
    }
  }

  lemma {:induction false} TakenCons(first: Taken, t: seq<Taken>)
    ensures FrontTaken([first] + t) == first.front + FrontTaken(t)
    ensures BackTaken([first] + t) == BackTaken(t) + first.back
  {
    assert ([first] + t)[1..] == t;
  }

  lemma {:induction false} AccountedCons(model: CharModel, calls: seq<Call>, a: Answer, answers: seq<Answer>, first: Taken, t: seq<Taken>)
    requires calls != [] && Accounted(model, calls[1..], answers, t)
    requires Step(model, calls[0], first.front + first.back) == Returned(a, |first.front|, |first.back|)
    ensures Accounted(model, calls, [a] + answers, [first] + t)
  {
    var answers', t' := [a] + answers, [first] + t;
    forall i | 0 <= i < |calls|
      ensures Step(model, calls[i], t'[i].front + t'[i].back) == Returned(answers'[i], |t'[i].front|, |t'[i].back|)
    {
      if i > 0 {
        assert calls[i] == calls[1..][i - 1] && t'[i] == t[i - 1] && answers'[i] == answers[i - 1];
      }
    }
  }

  lemma {:induction false} StepOnItsOwn(model: CharModel, c: Call, w: seq<byte>)
    requires !c.RemainingBytes? && Step(model, c, w).Returned?
    ensures var o := Step(model, c, w); Step(model, c, w[..o.front] + w[|w| - o.back..]) == o
  {
    var o := Step(model, c, w);
    var f, b := w[..o.front], w[|w| - o.back..];
    assert (f + b)[..o.front] == f && (f + b)[|f + b| - o.back..] == b;
    StepIsLocal(model, c, w, f + b);
  }

  // ------------------------------------------------------------------------
  // Exhausted data, and aborts
  // ------------------------------------------------------------------------

  /** What a call answers when no data is left. */
  function Default(c: Call): Answer
    requires !c.BadArguments()
  {
    match c
    case ConsumeBytesWithTerminator(_, terminator) => Bytes([terminator])
    case ConsumeBytes(_) => Bytes([])
    case ConsumeRemainingBytes => Bytes([])
    case ConsumeData(_) => Bytes([])
    case ConsumeIntegral(t) => Number(t.Min())
    case ConsumeIntegralInRange(_, min, _) => Number(min)
    case ConsumeBool => Flag(false)
    case ConsumeEnum(_) => Number(0)
    case PickValueInArray(values) => Number(values[0])
    case RemainingBytes => Size(0)
    case _ => Text([])
  }

  predicate GoodArguments(calls: seq<Call>) {
    forall i :: 0 <= i < |calls| ==> !calls[i].BadArguments()
  }

  function Defaults(calls: seq<Call>): (d: seq<Answer>)
    requires GoodArguments(calls)
  {
    seq(|calls|, i requires 0 <= i < |calls| => Default(calls[i]))
  }

  /** Once the data is used up, every continuation takes nothing and answers with the defaults. */
  lemma {:induction false} ExhaustionIsAbsorbing(model: CharModel, calls: seq<Call>)
    requires GoodArguments(calls)
    ensures Run(model, calls, []) == Finished(Defaults(calls), 0, 0)
  {
    if calls != [] {
      EmptyStep(model, calls[0]);
      ExhaustionIsAbsorbing(model, calls[1..]);
      assert Defaults(calls) == [Default(calls[0])] + Defaults(calls[1..]);
    }
  }

  lemma {:induction false} EmptyStep(model: CharModel, c: Call)
    requires !c.BadArguments()
    ensures Step(model, c, []) == Returned(Default(c), 0, 0)
  {
    if c.ReadsBack() {
      EmptyInteger(Low(c), High(c));
      AndOne(0);
    } else {
      var none: seq<byte> := [];
      assert Chars(model, none) == [];
      if c.ConsumeBytesWithTerminator? {
        assert none[..0] + [c.terminator] == [c.terminator];
      }
    }
  }

  lemma {:induction false} EmptyInteger(min: int, max: int)
    requires min <= max
    ensures ReadInteger(min, max, []) == min && IntegerBytes(max - min, 0) == 0
  {
    SmallMod(0, max - min + 1);
  }

  lemma {:induction false} InnerInner(w: seq<byte>, f: nat, b: nat, f': nat, b': nat)
    requires f + f' + b + b' <= |w|
    ensures Inner(Inner(w, f, b), f', b') == Inner(w, f + f', b + b')
  {
    var left, right := Inner(Inner(w, f, b), f', b'), Inner(w, f + f', b + b');
    assert |left| == |right|;
    forall i | 0 <= i < |left|
      ensures left[i] == right[i]
    {
      assert left[i] == Inner(w, f, b)[f' + i] == w[f + f' + i];
    }
  }

  /**
   On data that leaves room for a terminator, which is all data that fits in memory beside the
   code, a run is aborted exactly when one of its calls has bad arguments: the aborts inside the
   provider are never reached.
   */
  lemma {:induction false} DiesIffBadArguments(model: CharModel, calls: seq<Call>, w: seq<byte>)
    requires |w| < SIZE_MAX
    ensures Run(model, calls, w).Died? <==> !GoodArguments(calls)
  {
    if calls != [] {
      var o := Step(model, calls[0], w);
      AbortsExactly(model, calls[0], w);
      if o.Returned? {
        DiesIffBadArguments(model, calls[1..], Inner(w, o.front, o.back));
        assert GoodArguments(calls) <==> GoodArguments(calls[1..]) by {
          assert forall i :: 0 < i < |calls| ==> calls[i] == calls[1..][i - 1];
        }
      }
    }
  }

  // ------------------------------------------------------------------------
  // Splitting a read
  // ------------------------------------------------------------------------

  function Sum(ns: seq<nat>): nat {
    if ns == [] then 0 else ns[0] + Sum(ns[1..])
  }

  /** One `ConsumeBytes` for each length. */
  function Reads(ns: seq<nat>): (calls: seq<Call>)
    requires forall i :: 0 <= i < |ns| ==> ns[i] <= SIZE_MAX
    ensures |calls| == |ns|
  {
    if ns == [] then [] else [ConsumeBytes(ns[0])] + Reads(ns[1..])
  }

  function Joined(answers: seq<Answer>): seq<byte> {
    if answers == [] then []
    else (if answers[0].Bytes? then answers[0].bytes else []) + Joined(answers[1..])
  }

  /** Reading in pieces reads the same bytes as one read of the total, also when the data runs short. */
  lemma {:induction false} ReadsAddUp(model: CharModel, ns: seq<nat>, w: seq<byte>)
    requires forall i :: 0 <= i < |ns| ==> ns[i] <= SIZE_MAX
    ensures var r := Run(model, Reads(ns), w);
            var k := Min(Sum(ns), |w|);
            r.Finished? && r.front == k && r.back == 0 && Joined(r.answers) == w[..k]
  {
    if ns != [] {
      var k := Min(ns[0], |w|);
      var w' := Inner(w, k, 0);
      ReadsAddUp(model, ns[1..], w');
      ReadFirst(model, ns[0], Reads(ns[1..]), w);
      var r' := Run(model, Reads(ns[1..]), w');
      JoinedCons(w[..k], r'.answers);
      PrefixSplit(w, k, r'.front);
    }
  }

  lemma {:induction false} ReadFirst(model: CharModel, n: nat, calls: seq<Call>, w: seq<byte>)
    requires n <= SIZE_MAX
    ensures var k := Min(n, |w|);
            Run(model, [ConsumeBytes(n)] + calls, w) == After([Bytes(w[..k])], k, 0, Run(model, calls, Inner(w, k, 0)))
  {
    RunCons(model, ConsumeBytes(n), calls, w);
  }

  lemma {:induction false} JoinedCons(bytes: seq<byte>, answers: seq<Answer>)
    ensures Joined([Bytes(bytes)] + answers) == bytes + Joined(answers)
  {
    assert ([Bytes(bytes)] + answers)[1..] == answers;
  }

  lemma {:induction false} PrefixSplit(w: seq<byte>, k: nat, k': nat)
    requires k + k' <= |w|
    ensures w[..k + k'] == w[..k] + Inner(w, k, 0)[..k']
  {
  }
}
