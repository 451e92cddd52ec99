/** How the CLI reads a stack's status (lib/hygroscope/cli.rb): the colour
    `colorize_status` gives a status, and the decision of the `status`
    command's polling loop to stop or to describe the stack once more. */
module StackStatus {
  import opened Text

  const FailedWord := "failed"
  const ProgressWord := "progress"
  const CompleteWord := "complete"

  /** The message the loop aborts with when the stack cannot be described. */
  const NotFoundMessage := "Stack not found"

  datatype Color = Red | Yellow | Green

  /** What `set_color(status, color)` stands for: the status text as given,
      with a colour. */
  datatype Painted = Painted(color: Color, text: string)

  /** `colorize_status`: the downcased status is tested for a `failed`, then a
      `progress`, then a `complete` line end; no match paints nothing (`nil`). */
  function ColorizeStatus(status: string): (r: Option<Painted>)
    ensures r.Some? ==> r.value.text == status
  {
    var s := Downcase(status);
    if LineEndsWith(s, FailedWord) then Some(Painted(Red, status))
    else if LineEndsWith(s, ProgressWord) then Some(Painted(Yellow, status))
    else if LineEndsWith(s, CompleteWord) then Some(Painted(Green, status))
    else None
  }

  /** What the polling loop makes of a status. */
  datatype Verdict = Success | Failure | Pending

  /** The loop's own test, in its order: `complete` first, then `failed`;
      any other status keeps the loop polling. */
  function Classify(status: string): Verdict {
    var s := Downcase(status);
    if LineEndsWith(s, CompleteWord) then Success
    else if LineEndsWith(s, FailedWord) then Failure
    else Pending
  }

  lemma DowncaseOneLine(s: string)
    requires '\n' !in s
    ensures '\n' !in Downcase(s)
  {
    var d := Downcase(s);
    forall i | 0 <= i < |d| ensures d[i] != '\n' {
      assert s[i] in s;
    }
  }

  lemma EndsWithLast(s: string, w: string)
    requires |w| > 0
    ensures EndsWith(s, w) ==> |s| > 0 && s[|s| - 1] == w[|w| - 1]
  {
    if EndsWith(s, w) {
      assert s[|s| - |w|..][|w| - 1] == s[|s| - 1];
    }
  }

  /** Two words with different last letters cannot both end the same text. */
  lemma EndsWithDistinctLast(s: string, w1: string, w2: string)
    requires |w1| > 0 && |w2| > 0 && w1[|w1| - 1] != w2[|w2| - 1]
    ensures !(EndsWith(s, w1) && EndsWith(s, w2))
  {
    EndsWithLast(s, w1);
    EndsWithLast(s, w2);
  }

  /** On a one-line status both tests reduce to plain suffix tests. */
  lemma OneLineTests(status: string)
    requires '\n' !in status
    ensures var s := Downcase(status);
      && (LineEndsWith(s, FailedWord) <==> EndsWith(s, FailedWord))
      && (LineEndsWith(s, ProgressWord) <==> EndsWith(s, ProgressWord))
      && (LineEndsWith(s, CompleteWord) <==> EndsWith(s, CompleteWord))
      && !(EndsWith(s, CompleteWord) && EndsWith(s, FailedWord))
      && !(EndsWith(s, CompleteWord) && EndsWith(s, ProgressWord))
      && !(EndsWith(s, FailedWord) && EndsWith(s, ProgressWord))
  {
    var s := Downcase(status);
    DowncaseOneLine(status);
    LineEndsWithOneLine(s, FailedWord);
    LineEndsWithOneLine(s, ProgressWord);
    LineEndsWithOneLine(s, CompleteWord);
    EndsWithDistinctLast(s, CompleteWord, FailedWord);
    EndsWithDistinctLast(s, CompleteWord, ProgressWord);
    EndsWithDistinctLast(s, FailedWord, ProgressWord);
  }

  /** On a one-line status the header colour and the loop's decision agree:
      green exactly when the loop stops with success, red exactly when it
      stops with failure, yellow or no colour exactly when it keeps polling. */
  lemma ColorAgreesWithPolling(status: string)
    requires '\n' !in status
    ensures Classify(status) == Success <==> ColorizeStatus(status) == Some(Painted(Green, status))
    ensures Classify(status) == Failure <==> ColorizeStatus(status) == Some(Painted(Red, status))
    ensures Classify(status) == Pending <==>
      (ColorizeStatus(status) == None || ColorizeStatus(status) == Some(Painted(Yellow, status)))
  {
    OneLineTests(status);
  }

  /** A word that ends the second part ends the whole. */
  lemma EndsWithAppend(a: string, b: string, w: string)
    requires EndsWith(b, w)
    ensures EndsWith(a + b, w)
  {
    assert (a + b)[|a + b| - |w|..] == b[|b| - |w|..];
  }

  /** The two tests run in different orders, which shows when a status
      holds a line feed: a line ending in `failed` followed by a line ending
      in `complete` paints red in the header while the loop stops with
      success. */
  lemma OrderMattersAcrossLines(x: string, y: string)
    requires EndsWith(Downcase(x), FailedWord) && EndsWith(Downcase(y), CompleteWord)
    ensures var s := x + "\n" + y;
      ColorizeStatus(s) == Some(Painted(Red, s)) && Classify(s) == Success
  {
    FirstLineEnds(x, y, FailedWord);
    LastLineEnds(x, y, CompleteWord);
  }

  /** The downcase of two lines is the two lines downcased. */
  lemma DowncaseLines(x: string, y: string)
    ensures Downcase(x + "\n" + y) == Downcase(x) + "\n" + Downcase(y)
  {
    DowncaseAppend(x + "\n", y);
    DowncaseAppend(x, "\n");
  }

  /** A word ending the first of two lines ends a line of the whole. */
  lemma FirstLineEnds(x: string, y: string, w: string)
    requires EndsWith(Downcase(x), w)
    ensures LineEndsWith(Downcase(x + "\n" + y), w)
  {
    DowncaseLines(x, y);
    var d := Downcase(x + "\n" + y);
    var k := |x|;
    assert d[k] == '\n' && d[..k] == Downcase(x);
  }

  /** A word ending the last of two lines ends the whole. */
  lemma LastLineEnds(x: string, y: string, w: string)
    requires EndsWith(Downcase(y), w)
    ensures EndsWith(Downcase(x + "\n" + y), w)
  {
    DowncaseLines(x, y);
    EndsWithAppend(Downcase(x) + "\n", Downcase(y), w);
  }

  /** Appending one-line texts gives a one-line text. */
  lemma OneLineConcat(x: string, w: string)
    requires '\n' !in x && '\n' !in w
    ensures '\n' !in x + w
  {
    forall i | 0 <= i < |x + w| ensures (x + w)[i] != '\n' {
      if i < |x| { assert x[i] in x; } else { assert w[i - |x|] in w; }
    }
  }

  /** The downcase of `x + w` ends with the downcase of `w`. */
  lemma DowncaseSuffix(x: string, w: string)
    ensures EndsWith(Downcase(x + w), Downcase(w))
  {
    DowncaseAppend(x, w);
    EndsWithAppend(Downcase(x), Downcase(w), Downcase(w));
  }

  /** Status names as the orchestration service spells them, after any
      one-line prefix: a `COMPLETE` ending in any case stops with success, a
      `FAILED` ending stops with failure, an `IN_PROGRESS` ending polls on. */
  lemma ClassifyBySuffix(x: string, w: string)
    requires '\n' !in x && '\n' !in w
    ensures Downcase(w) == "complete" ==> Classify(x + w) == Success
    ensures Downcase(w) == "failed" ==> Classify(x + w) == Failure
    ensures Downcase(w) == "in_progress" ==> Classify(x + w) == Pending
  {
    DowncaseSuffix(x, w);
    OneLineConcat(x, w);
    DowncaseOneLine(x + w);
    var s := Downcase(x + w);
    LineEndsWithOneLine(s, CompleteWord);
    LineEndsWithOneLine(s, FailedWord);
    if Downcase(w) == "failed" {
      EndsWithDistinctLast(s, CompleteWord, FailedWord);
    } else if Downcase(w) == "in_progress" {
      EndsWithDistinctLast(s, CompleteWord, Downcase(w));
      EndsWithDistinctLast(s, FailedWord, Downcase(w));
    }
  }

  /** The colours of the header for status names as the orchestration
      service spells them, after any one-line prefix: `FAILED` paints red,
      `IN_PROGRESS` yellow, `COMPLETE` green, in any case. */
  lemma ColorizeBySuffix(x: string, w: string)
    requires '\n' !in x && '\n' !in w
    ensures Downcase(w) == "failed" ==> ColorizeStatus(x + w) == Some(Painted(Red, x + w))
    ensures Downcase(w) == "in_progress" ==> ColorizeStatus(x + w) == Some(Painted(Yellow, x + w))
    ensures Downcase(w) == "complete" ==> ColorizeStatus(x + w) == Some(Painted(Green, x + w))
  {
    DowncaseSuffix(x, w);
    OneLineConcat(x, w);
    DowncaseOneLine(x + w);
    if Downcase(w) == "in_progress" {
      PaintedYellow(Downcase(x + w));
    } else if Downcase(w) == "complete" {
      PaintedGreen(Downcase(x + w));
    }
  }

  /** A word that ends a text ends it without its first `k` letters too. */
  lemma EndsWithShorter(s: string, w: string, k: nat)
    requires EndsWith(s, w) && k <= |w|
    ensures EndsWith(s, w[k..])
  {
    assert s[|s| - |w[k..]|..] == s[|s| - |w|..][k..];
  }

  /** A one-line downcased status ending in `in_progress` takes the second
      test of `colorize_status`. */
  lemma PaintedYellow(s: string)
    requires '\n' !in s && EndsWith(s, "in_progress")
    ensures !LineEndsWith(s, FailedWord) && LineEndsWith(s, ProgressWord)
  {
    LineEndsWithOneLine(s, FailedWord);
    EndsWithDistinctLast(s, FailedWord, "in_progress");
    EndsWithShorter(s, "in_progress", 3);
    assert "in_progress"[3..] == ProgressWord;
  }

  /** A one-line downcased status ending in `complete` takes the third test
      of `colorize_status`. */
  lemma PaintedGreen(s: string)
    requires '\n' !in s && EndsWith(s, CompleteWord)
    ensures !LineEndsWith(s, FailedWord) && !LineEndsWith(s, ProgressWord)
  {
    LineEndsWithOneLine(s, FailedWord);
    LineEndsWithOneLine(s, ProgressWord);
    EndsWithDistinctLast(s, FailedWord, CompleteWord);
    EndsWithDistinctLast(s, ProgressWord, CompleteWord);
  }

  /** On a one-line status each colour of `colorize_status` is tied to its
      own word: red exactly for a `failed` ending, yellow exactly for a
      `progress` ending, green exactly for a `complete` ending, in any case. */
  lemma ColorizeOneLine(status: string)
    requires '\n' !in status
    ensures var s := Downcase(status);
      && (EndsWith(s, FailedWord) <==> ColorizeStatus(status) == Some(Painted(Red, status)))
      && (EndsWith(s, ProgressWord) <==> ColorizeStatus(status) == Some(Painted(Yellow, status)))
      && (EndsWith(s, CompleteWord) <==> ColorizeStatus(status) == Some(Painted(Green, status)))
  {
    OneLineTests(status);
  }

  /** A one-line status that ends in none of the three words is not
      painted: `colorize_status` gives `nil`. */
  lemma ColorizeNoMatch(status: string)
    requires '\n' !in status
    requires var s := Downcase(status);
      !EndsWith(s, FailedWord) && !EndsWith(s, ProgressWord) && !EndsWith(s, CompleteWord)
    ensures ColorizeStatus(status) == None
  {
    OneLineTests(status);
  }

  // ---------------------------------------------------------------------
  // The polling loop
  // ---------------------------------------------------------------------

  datatype Output = Output(key: string, value: string)

  /** What one pass of the loop got back from the orchestration service:
      a description of the stack, a validation error (the stack does not
      exist), or any other error, which the loop does not rescue. */
  datatype Round = Described(status: string, outputs: seq<Output>) | ValidationError | Raised(message: string)

  /** How the loop ended after the given rounds. */
  datatype PollEnd =
    | Stopped(round: nat, verdict: Verdict, shown: seq<Output>)  // `break`; outputs are listed on success only
    | Aborted(round: nat, message: string)                        // `fail("Stack not found")`
    | Crashed(round: nat, message: string)                        // an error the loop does not rescue
    | StillPolling(rounds: nat)                                   // every round observed kept it going

  /** The rounds before `n` all described the stack with a status that
      keeps the loop going. */
  predicate AllPending(rounds: seq<Round>, n: nat)
    requires n <= |rounds|
  {
    forall j :: 0 <= j < n ==> rounds[j].Described? && Classify(rounds[j].status) == Pending
  }

  /** The loop from round `i` on. */
  function PollFrom(rounds: seq<Round>, i: nat): PollEnd
    requires i <= |rounds|
    decreases |rounds| - i
  {
    if i == |rounds| then StillPolling(|rounds|)
    else match rounds[i]
      case ValidationError => Aborted(i, NotFoundMessage)
      case Raised(m) => Crashed(i, m)
      case Described(status, outputs) =>
        match Classify(status)
        case Success => Stopped(i, Success, outputs)
        case Failure => Stopped(i, Failure, [])
        case Pending => PollFrom(rounds, i + 1)
  }

  /** How the loop from a round `i` reached with only pending rounds before it
      can end: at a later non-pending round, with that round's outcome, or
      still polling when every round is pending. */
  lemma {:induction false} PollFromEnds(rounds: seq<Round>, i: nat)
    requires i <= |rounds| && AllPending(rounds, i)
    ensures var e := PollFrom(rounds, i);
      && (e.StillPolling? <==> AllPending(rounds, |rounds|))
      && (e.Stopped? ==>
            && i <= e.round < |rounds| && AllPending(rounds, e.round)
            && rounds[e.round].Described? && e.verdict == Classify(rounds[e.round].status) != Pending
            && e.shown == (if e.verdict == Success then rounds[e.round].outputs else []))
      && (e.Aborted? ==>
            && i <= e.round < |rounds| && AllPending(rounds, e.round)
            && rounds[e.round] == ValidationError && e.message == NotFoundMessage)
      && (e.Crashed? ==>
            && i <= e.round < |rounds| && AllPending(rounds, e.round)
            && rounds[e.round] == Raised(e.message))
    decreases |rounds| - i
  {
    if i < |rounds| && rounds[i].Described? && Classify(rounds[i].status) == Pending {
      PollFromEnds(rounds, i + 1);
    }
  }

  /** The `status` command's loop over the rounds it observes. It ends at the
      first round that is not a pending description: with success (listing
      that round's outputs) on `complete`, with failure on `failed`, with
      "Stack not found" on a validation error; if every round is pending it
      is still polling. */
  method Status(rounds: seq<Round>) returns (e: PollEnd)
    ensures e == PollFrom(rounds, 0)
    ensures e.StillPolling? <==> AllPending(rounds, |rounds|)
    ensures e.Stopped? ==>
              && e.round < |rounds| && AllPending(rounds, e.round)
              && rounds[e.round].Described? && e.verdict == Classify(rounds[e.round].status) != Pending
              && e.shown == (if e.verdict == Success then rounds[e.round].outputs else [])
    ensures e.Aborted? ==>
              && e.round < |rounds| && AllPending(rounds, e.round)
              && rounds[e.round] == ValidationError && e.message == NotFoundMessage
    ensures e.Crashed? ==>
              && e.round < |rounds| && AllPending(rounds, e.round)
              && rounds[e.round] == Raised(e.message)
  {
    PollFromEnds(rounds, 0);
    var i := 0;
    while i < |rounds|
      invariant 0 <= i <= |rounds|
      invariant AllPending(rounds, i)
      invariant PollFrom(rounds, 0) == PollFrom(rounds, i)
    {
      match rounds[i]
      case ValidationError =>
        return Aborted(i, NotFoundMessage);
      case Raised(m) =>
        return Crashed(i, m);
      case Described(status, outputs) =>
        var v := Classify(status);
        if v == Success {
          return Stopped(i, Success, outputs);
        } else if v == Failure {
          return Stopped(i, Failure, []);
        }
      i := i + 1;
    }
    e := StillPolling(|rounds|);
  }

  /** The loop does not tell a stack that was just deleted from one that never
      existed: a pending status (such as `DELETE_IN_PROGRESS`) followed by a
      validation error ends with "Stack not found", not with success. */
  lemma DeletedStackIsNotFound(x: string, w: string)
    requires '\n' !in x && '\n' !in w && Downcase(w) == "in_progress"
    ensures PollFrom([Described(x + w, []), ValidationError], 0) == Aborted(1, NotFoundMessage)
  {
    ClassifyBySuffix(x, w);
  }
}
