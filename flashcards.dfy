/**
 * The flashcard parser of `generate_flashcards` (src/app.py): one model
 * completion becomes an ordered list of question/answer cards.
 *
 * As written, the completion is stripped, split on every "Q:", the pieces
 * without "A:" are dropped, each remaining piece is split on every "A:", and
 * only the pieces that split into exactly two parts become cards (both parts
 * stripped). The piece before the first "Q:" is not discarded, and empty
 * questions or answers are accepted.
 */
module Flashcards {
  import opened Wrappers
  import opened Text

  datatype Card = Card(question: string, answer: string)

  const QuestionMarker: string := "Q:"
  const AnswerMarker: string := "A:"

  /** The card limit the generation prompt asks for; it is never applied to the parsed cards. */
  const PromptCardLimit: nat := 15

  /** The list comprehension of the parser: `[p.split("A:") for p in segments if "A:" in p]`. */
  function AnswerSplits(segments: seq<string>): (pairs: seq<seq<string>>)
    ensures |pairs| <= |segments|
    ensures forall k :: 0 <= k < |pairs| ==> |pairs[k]| >= 2
    decreases |segments|
  {
    if segments == [] then []
    else
      (if Contains(segments[0], AnswerMarker) then [Split(segments[0], AnswerMarker)] else [])
      + AnswerSplits(segments[1..])
  }

  /** The pieces of a completion between its "Q:" markers, the first one included. */
  function Segments(raw: string): seq<string> {
    Split(raw, QuestionMarker)
  }

  /** The "A:" splits of every segment that contains "A:". */
  function CandidatePairs(raw: string): seq<seq<string>> {
    AnswerSplits(Segments(raw))
  }

  /** What one pass of the card-building loop adds: a card when the split has exactly two parts. */
  function CardOf(qa: seq<string>): (c: seq<Card>)
  {
    if |qa| == 2 then [Card(Strip(qa[0]), Strip(qa[1]))] else []
  }

  /** The cards the loop builds from a list of splits, in order. */
  function CardsOf(pairs: seq<seq<string>>): (cards: seq<Card>)
    ensures |cards| <= |pairs|
    decreases |pairs|
  {
    if pairs == [] then [] else CardOf(pairs[0]) + CardsOf(pairs[1..])
  }

  /** The cards parsed out of a completion that has already been stripped. */
  function ParseFlashcards(raw: string): (cards: seq<Card>)
    ensures |cards| <= |CandidatePairs(raw)| <= |Segments(raw)|
  {
    CardsOf(CandidatePairs(raw))
  }

  lemma {:induction false} CardsOfConcat(a: seq<seq<string>>, b: seq<seq<string>>)
    ensures CardsOf(a + b) == CardsOf(a) + CardsOf(b)
    decreases |a|
  {
    if a == [] {
      assert a + b == b;
    } else {
      assert (a + b)[1..] == a[1..] + b;
      CardsOfConcat(a[1..], b);
    }
  }

  /**
   * The card-building loop: every split with exactly two parts becomes a card,
   * every other split is skipped with a warning.
   */
  method BuildCards(pairs: seq<seq<string>>) returns (cards: seq<Card>, skipped: nat)
    ensures cards == CardsOf(pairs)
    ensures skipped == |pairs| - |cards|
  {
    cards, skipped := [], 0;
    for j := 0 to |pairs|
      invariant cards == CardsOf(pairs[..j])
      invariant skipped == j - |cards|
    {
      var qa := pairs[j];
      if |qa| == 2 {
        cards := cards + [Card(Strip(qa[0]), Strip(qa[1]))];
      } else {
        skipped := skipped + 1;
      }
      assert pairs[..j + 1] == pairs[..j] + [qa];
      CardsOfConcat(pairs[..j], [qa]);
    }
    assert pairs[..|pairs|] == pairs;
  }

  /** How one flashcard request ends. */
  datatype Outcome =
    | RequestFailed                  // the model call raised; an error is shown
    | NoPairs                        // no segment contains "A:"; an info message is shown
    | NoValidCards                   // every candidate split was malformed
    | Generated(cards: seq<Card>)    // the batch that replaces the stored cards

  /**
   * The body of `generate_flashcards` once the model has answered (`None`
   * when the call raised): strip the completion, parse it, and report.
   */
  method Generate(reply: Option<string>) returns (outcome: Outcome)
    ensures reply.None? <==> outcome == RequestFailed
    ensures outcome == NoPairs <==> reply.Some? && CandidatePairs(Strip(reply.value)) == []
    ensures outcome.Generated? <==> reply.Some? && ParseFlashcards(Strip(reply.value)) != []
    ensures outcome.Generated? ==> outcome.cards == ParseFlashcards(Strip(reply.value))
  {
    if reply.None? {
      return RequestFailed;
    }
    var response := Strip(reply.value);
    var pairs := AnswerSplits(Split(response, QuestionMarker));
    if pairs == [] {
      return NoPairs;
    }
    var cards, _ := BuildCards(pairs);
    if cards == [] {
      return NoValidCards;
    }
    return Generated(cards);
  }

  // ---------------------------------------------------------------------------
  // A reference description: one card per segment with exactly one "A:".
  // ---------------------------------------------------------------------------

  /** A segment that yields a card: "A:" occurs in it exactly once. */
  predicate WellFormed(segment: string) {
    Occurrences(segment, AnswerMarker) == 1
  }

  lemma WellFormedSplit(segment: string)
    ensures |Split(segment, AnswerMarker)| == 2 <==> WellFormed(segment)
    ensures WellFormed(segment) ==> Contains(segment, AnswerMarker)
  {
    SplitCountsOccurrences(segment, AnswerMarker);
  }

  /** The card of a well-formed segment: the stripped text before and after its "A:". */
  function SegmentCard(segment: string): Card
    requires WellFormed(segment)
  {
    WellFormedSplit(segment);
    var i := IndexOf(segment, AnswerMarker).value;
    Card(Strip(segment[..i]), Strip(segment[i + |AnswerMarker|..]))
  }

  /** One card per well-formed segment, in segment order. */
  function ReferenceCards(segments: seq<string>): seq<Card>
    decreases |segments|
  {
    if segments == [] then []
    else
      (if WellFormed(segments[0]) then [SegmentCard(segments[0])] else [])
      + ReferenceCards(segments[1..])
  }

  /** What the comprehension and the loop make of one segment is what the reference says. */
  lemma SegmentAgrees(segment: string)
    ensures CardsOf(if Contains(segment, AnswerMarker) then [Split(segment, AnswerMarker)] else [])
         == (if WellFormed(segment) then [SegmentCard(segment)] else [])
  {
    WellFormedSplit(segment);
    if Contains(segment, AnswerMarker) {
      var parts := Split(segment, AnswerMarker);
      assert CardsOf([parts]) == CardOf(parts) + CardsOf([]);
      if |parts| == 2 {
        var i := IndexOf(segment, AnswerMarker).value;
        var rest := segment[i + |AnswerMarker|..];
        assert parts == [segment[..i]] + Split(rest, AnswerMarker);
        assert Split(rest, AnswerMarker) == [rest];
      }
    }
  }

  lemma {:induction false} SplitsAgree(segments: seq<string>)
    ensures CardsOf(AnswerSplits(segments)) == ReferenceCards(segments)
    decreases |segments|
  {
    if segments != [] {
      var s := segments[0];
      var head := if Contains(s, AnswerMarker) then [Split(s, AnswerMarker)] else [];
      CardsOfConcat(head, AnswerSplits(segments[1..]));
      SegmentAgrees(s);
      SplitsAgree(segments[1..]);
    }
  }

  /**
   * The parser emits exactly one card per "Q:" segment in which "A:" occurs
   * exactly once, in segment order, made of the stripped text before and
   * after that "A:"; segments with no "A:" or with two or more give none.
   */
  lemma ParseMatchesReference(raw: string)
    ensures ParseFlashcards(raw) == ReferenceCards(Segments(raw))
  {
    SplitsAgree(Segments(raw));
  }

  /**
   * `idx` lists where each reference card of `segments` comes from: the
   * positions of the well-formed segments, strictly increasing, every one of
   * them listed, the k-th card being that of the k-th listed segment.
   */
  ghost predicate Sources(segments: seq<string>, idx: seq<nat>) {
    Matches(segments, idx) && Increasing(idx) && Complete(segments, idx)
  }

  /** The k-th reference card is the card of the well-formed segment `idx[k]`. */
  ghost predicate Matches(segments: seq<string>, idx: seq<nat>) {
    Pairs(segments, idx, ReferenceCards(segments))
  }

  /** `cards[k]` is the card of the well-formed segment `idx[k]`, for every k. */
  predicate Pairs(segments: seq<string>, idx: seq<nat>, cards: seq<Card>) {
    && |idx| == |cards|
    && (forall k :: 0 <= k < |idx| ==>
          idx[k] < |segments| && WellFormed(segments[idx[k]]) && cards[k] == SegmentCard(segments[idx[k]]))
  }

  /** Every well-formed segment is listed. */
  predicate Complete(segments: seq<string>, idx: seq<nat>) {
    forall j :: 0 <= j < |segments| && WellFormed(segments[j]) ==> j in idx
  }

  function Shift(idx: seq<nat>): (r: seq<nat>)
    ensures |r| == |idx| && forall k :: 0 <= k < |idx| ==> r[k] == idx[k] + 1
  {
    seq(|idx|, k requires 0 <= k < |idx| => idx[k] + 1)
  }

  /** The cards appear in the order of the segments they come from. */
  function CardSources(segments: seq<string>): (idx: seq<nat>)
    ensures Sources(segments, idx)
    decreases |segments|
  {
    if segments == [] then []
    else
      var rest := CardSources(segments[1..]);
      SourcesStep(segments, rest);
      (if WellFormed(segments[0]) then [0] else []) + Shift(rest)
  }

  lemma SourcesStep(segments: seq<string>, rest: seq<nat>)
    requires segments != [] && Sources(segments[1..], rest)
    ensures Sources(segments, (if WellFormed(segments[0]) then [0] else []) + Shift(rest))
  {
    var idx := (if WellFormed(segments[0]) then [0] else []) + Shift(rest);
    StepCards(segments, rest);
    StepOrder(segments, rest);
    StepComplete(segments, rest);
    assert Sources(segments, idx);
  }

  lemma StepCards(segments: seq<string>, rest: seq<nat>)
    requires segments != [] && Matches(segments[1..], rest)
    ensures Matches(segments, (if WellFormed(segments[0]) then [0] else []) + Shift(rest))
  {
    var h := if WellFormed(segments[0]) then [0] else [];
    var head := if WellFormed(segments[0]) then [SegmentCard(segments[0])] else [];
    assert ReferenceCards(segments) == head + ReferenceCards(segments[1..]);
    PairsStep(segments, rest, h, head, ReferenceCards(segments[1..]));
  }

  /** The shifted positions of the rest still name the right segments, after the head card if any. */
  lemma PairsStep(segments: seq<string>, rest: seq<nat>, h: seq<nat>, head: seq<Card>, cards: seq<Card>)
    requires segments != [] && Pairs(segments[1..], rest, cards)
    requires |h| == |head| <= 1
    requires |h| == 1 ==> h[0] == 0 && WellFormed(segments[0]) && head[0] == SegmentCard(segments[0])
    ensures Pairs(segments, h + Shift(rest), head + cards)
  {
    var idx := h + Shift(rest);
    var all := head + cards;
    forall k | 0 <= k < |idx|
      ensures idx[k] < |segments| && WellFormed(segments[idx[k]]) && all[k] == SegmentCard(segments[idx[k]])
    {
      PairAt(segments, rest, h, head, cards, k);
    }
  }

  lemma PairAt(segments: seq<string>, rest: seq<nat>, h: seq<nat>, head: seq<Card>, cards: seq<Card>, k: nat)
    requires segments != [] && Pairs(segments[1..], rest, cards)
    requires |h| == |head| <= 1
    requires |h| == 1 ==> h[0] == 0 && WellFormed(segments[0]) && head[0] == SegmentCard(segments[0])
    requires k < |h| + |rest|
    ensures var i := (h + Shift(rest))[k];
      i < |segments| && WellFormed(segments[i]) && (head + cards)[k] == SegmentCard(segments[i])
  {
    if k >= |h| {
      var m := k - |h|;
      assert (h + Shift(rest))[k] == rest[m] + 1 && (head + cards)[k] == cards[m];
      assert segments[1..][rest[m]] == segments[rest[m] + 1];
    } else {
      assert (h + Shift(rest))[k] == 0 && (head + cards)[k] == head[0];
    }
  }

  lemma StepOrder(segments: seq<string>, rest: seq<nat>)
    requires segments != [] && Increasing(rest)
    ensures Increasing((if WellFormed(segments[0]) then [0] else []) + Shift(rest))
  {
    var h := if WellFormed(segments[0]) then [0] else [];
    var idx := h + Shift(rest);
    forall k, l | 0 <= k < l < |idx| ensures idx[k] < idx[l] {
      if k >= |h| {
        assert idx[k] == rest[k - |h|] + 1 && idx[l] == rest[l - |h|] + 1;
      } else {
        assert idx[l] == rest[l - |h|] + 1;
      }
    }
  }

  lemma StepComplete(segments: seq<string>, rest: seq<nat>)
    requires segments != [] && Complete(segments[1..], rest)
    ensures Complete(segments, (if WellFormed(segments[0]) then [0] else []) + Shift(rest))
  {
    var tail := segments[1..];
    var h := if WellFormed(segments[0]) then [0] else [];
    var shifted := Shift(rest);
    var idx := h + shifted;
    forall j | 0 <= j < |segments| && WellFormed(segments[j]) ensures j in idx {
      if j == 0 {
        assert idx[0] == 0;
      } else {
        assert tail[j - 1] == segments[j];
        assert j - 1 in rest;
        var k :| 0 <= k < |rest| && rest[k] == j - 1;
        assert idx[|h| + k] == j;
      }
    }
  }

  /** A completion without any "A:" yields no candidate and no card. */
  lemma NoAnswerMarkerNoCards(raw: string)
    requires !Contains(raw, AnswerMarker)
    ensures CandidatePairs(raw) == [] && ParseFlashcards(raw) == []
  {
    SplitPartsLack(raw, QuestionMarker, AnswerMarker);
    NoneContain(Segments(raw));
  }

  lemma {:induction false} NoneContain(segments: seq<string>)
    requires forall k :: 0 <= k < |segments| ==> !Contains(segments[k], AnswerMarker)
    ensures AnswerSplits(segments) == []
    decreases |segments|
  {
    if segments != [] {
      NoneContain(segments[1..]);
    }
  }

  lemma {:induction false} NoPairsNoneContain(segments: seq<string>)
    requires AnswerSplits(segments) == []
    ensures forall k :: 0 <= k < |segments| ==> !Contains(segments[k], AnswerMarker)
    decreases |segments|
  {
    if segments != [] {
      NoPairsNoneContain(segments[1..]);
      forall k | 0 < k < |segments| ensures !Contains(segments[k], AnswerMarker) {
        assert segments[k] == segments[1..][k - 1];
      }
    }
  }

  /**
   * The "no pairs" outcome happens exactly when no "Q:" segment of the
   * completion contains "A:".
   */
  lemma NoPairsExactly(raw: string)
    ensures CandidatePairs(raw) == [] <==>
      forall k :: 0 <= k < |Segments(raw)| ==> !Contains(Segments(raw)[k], AnswerMarker)
  {
    var segments := Segments(raw);
    if CandidatePairs(raw) == [] {
      NoPairsNoneContain(segments);
    }
    if forall k :: 0 <= k < |segments| ==> !Contains(segments[k], AnswerMarker) {
      NoneContain(segments);
    }
  }

  // ---------------------------------------------------------------------------
  // The format the generation prompt asks for, and parsing it back.
  // ---------------------------------------------------------------------------

  /** One line in the requested format, "Q: question A: answer". */
  function FormatLine(c: Card): string {
    "Q: " + c.question + " A: " + c.answer
  }

  function Lines(cards: seq<Card>): (lines: seq<string>)
    ensures |lines| == |cards|
    decreases |cards|
  {
    if cards == [] then [] else [FormatLine(cards[0])] + Lines(cards[1..])
  }

  /** The cards written one per line, as the prompt requests. */
  function Format(cards: seq<Card>): string {
    Join(Lines(cards), "\n")
  }

  /** A question or answer the format can carry: already stripped and free of both markers. */
  predicate Clean(t: string) {
    IsStripped(t) && !Contains(t, QuestionMarker) && !Contains(t, AnswerMarker)
  }

  /** The text after the k-th "Q:" of a formatted list of cards. */
  function Body(c: Card, last: bool): string {
    " " + c.question + " A: " + c.answer + (if last then "" else "\n")
  }

  function Bodies(cards: seq<Card>): (bodies: seq<string>)
    ensures |bodies| == |cards|
    decreases |cards|
  {
    if cards == [] then []
    else [Body(cards[0], |cards| == 1)] + Bodies(cards[1..])
  }

  lemma {:induction false} FormatIsQuestionJoin(cards: seq<Card>)
    requires cards != []
    ensures Format(cards) == QuestionMarker + Join(Bodies(cards), QuestionMarker)
    decreases |cards|
  {
    var c := cards[0];
    if |cards| > 1 {
      var rest := cards[1..];
      FormatIsQuestionJoin(rest);
      JoinCons(FormatLine(c), Lines(rest), "\n");
      JoinCons(Body(c, false), Bodies(rest), QuestionMarker);
      assert Lines(cards) == [FormatLine(c)] + Lines(rest);
      assert Bodies(cards) == [Body(c, false)] + Bodies(rest);
    }
  }

  lemma BodyHasNoQuestionMarker(c: Card, last: bool)
    requires Clean(c.question) && Clean(c.answer)
    ensures !Contains(Body(c, last), QuestionMarker)
  {
    var nl := if last then "" else "\n";
    LacksLead(" ", QuestionMarker);
    LacksLead(" A: ", QuestionMarker);
    LacksLead(nl, QuestionMarker);
    ConcatLacks(" ", c.question, QuestionMarker);
    ConcatLacks(" " + c.question, " A: ", QuestionMarker);
    ConcatLacks(" " + c.question + " A: ", c.answer, QuestionMarker);
    ConcatLacks(" " + c.question + " A: " + c.answer, nl, QuestionMarker);
  }

  /** A body is the question part and the answer part joined by the single "A:". */
  lemma BodySplit(c: Card, last: bool)
    requires Clean(c.question) && Clean(c.answer)
    ensures Contains(Body(c, last), AnswerMarker)
    ensures Split(Body(c, last), AnswerMarker) == [" " + c.question + " ", " " + c.answer + (if last then "" else "\n")]
  {
    var nl := if last then "" else "\n";
    var before := " " + c.question + " ";
    var after := " " + c.answer + nl;
    assert Body(c, last) == Join([before, after], AnswerMarker);
    LacksLead(" ", AnswerMarker);
    LacksLead(nl, AnswerMarker);
    ConcatLacks(" ", c.question, AnswerMarker);
    ConcatLacks(" " + c.question, " ", AnswerMarker);
    ConcatLacks(" ", c.answer, AnswerMarker);
    ConcatLacks(" " + c.answer, nl, AnswerMarker);
    SplitJoin([before, after], AnswerMarker);
  }

  lemma BodyCard(c: Card, last: bool)
    requires Clean(c.question) && Clean(c.answer)
    ensures CardsOf(AnswerSplits([Body(c, last)])) == [c]
  {
    BodySplit(c, last);
    var nl := if last then "" else "\n";
    StripPadded(" ", c.question, " ");
    StripPadded(" ", c.answer, nl);
    assert AnswerSplits([Body(c, last)]) == [Split(Body(c, last), AnswerMarker)] + AnswerSplits([]);
    assert CardsOf([Split(Body(c, last), AnswerMarker)]) == CardOf(Split(Body(c, last), AnswerMarker)) + CardsOf([]);
  }

  lemma {:induction false} BodiesCards(cards: seq<Card>)
    requires forall k :: 0 <= k < |cards| ==> Clean(cards[k].question) && Clean(cards[k].answer)
    ensures CardsOf(AnswerSplits(Bodies(cards))) == cards
    decreases |cards|
  {
    if cards != [] {
      var b := Body(cards[0], |cards| == 1);
      var rest := Bodies(cards[1..]);
      assert Bodies(cards) == [b] + rest;
      calc {
        CardsOf(AnswerSplits([b] + rest));
        == { AnswerSplitsConcat([b], rest); }
        CardsOf(AnswerSplits([b]) + AnswerSplits(rest));
        == { CardsOfConcat(AnswerSplits([b]), AnswerSplits(rest)); }
        CardsOf(AnswerSplits([b])) + CardsOf(AnswerSplits(rest));
        == { BodyCard(cards[0], |cards| == 1); BodiesCards(cards[1..]); }
        [cards[0]] + cards[1..];
      }
    }
  }

  lemma {:induction false} AnswerSplitsConcat(a: seq<string>, b: seq<string>)
    ensures AnswerSplits(a + b) == AnswerSplits(a) + AnswerSplits(b)
    decreases |a|
  {
    if a == [] {
      assert a + b == b;
    } else {
      assert (a + b)[1..] == a[1..] + b;
      AnswerSplitsConcat(a[1..], b);
    }
  }

  /**
   * Cards written in the format the prompt requests parse back to the same
   * cards in the same order, provided no question or answer carries a marker
   * or surrounding whitespace.
   */
  lemma FormatRoundTrip(cards: seq<Card>)
    requires forall k :: 0 <= k < |cards| ==> Clean(cards[k].question) && Clean(cards[k].answer)
    ensures ParseFlashcards(Format(cards)) == cards
  {
    if cards == [] {
      assert Format(cards) == [];
      assert Segments([]) == [[]];
      assert !Contains([], AnswerMarker);
    } else {
      var bodies := Bodies(cards);
      var segments := [[]] + bodies;
      assert Format(cards) == Join(segments, QuestionMarker) by {
        FormatIsQuestionJoin(cards);
        JoinCons([], bodies, QuestionMarker);
      }
      assert Split(Format(cards), QuestionMarker) == segments by {
        SegmentsLackQuestionMarker(cards);
        SplitJoin(segments, QuestionMarker);
      }
      calc {
        ParseFlashcards(Format(cards));
        CardsOf(AnswerSplits(segments));
        { AnswerSplitsConcat([[]], bodies);
          assert AnswerSplits(segments) == AnswerSplits([[]]) + AnswerSplits(bodies);
          EmptySegmentDropped();
          assert AnswerSplits(segments) == AnswerSplits(bodies); }
        CardsOf(AnswerSplits(bodies));
        { BodiesCards(cards); }
        cards;
      }
    }
  }

  lemma EmptySegmentDropped()
    ensures AnswerSplits([[]]) == []
  {
    var empty: string := [];
    assert !Contains(empty, AnswerMarker);
    assert [empty][1..] == [];
  }

  lemma SegmentsLackQuestionMarker(cards: seq<Card>)
    requires forall k :: 0 <= k < |cards| ==> Clean(cards[k].question) && Clean(cards[k].answer)
    ensures forall k :: 0 <= k < |[[]] + Bodies(cards)| ==> !Contains(([[]] + Bodies(cards))[k], QuestionMarker)
  {
    var segments := [[]] + Bodies(cards);
    forall k | 0 <= k < |segments| ensures !Contains(segments[k], QuestionMarker) {
      if k == 0 {
        LacksLead([], QuestionMarker);
      } else {
        BodyAt(cards, k - 1);
        BodyHasNoQuestionMarker(cards[k - 1], k - 1 == |cards| - 1);
      }
    }
  }

  lemma {:induction false} BodyAt(cards: seq<Card>, k: nat)
    requires k < |cards|
    ensures Bodies(cards)[k] == Body(cards[k], k == |cards| - 1)
    decreases k
  {
    if k > 0 {
      BodyAt(cards[1..], k - 1);
    }
  }

  /** A stripped text with neither 'Q' nor 'A' in it is clean. */
  lemma CleanByChars(t: string)
    requires IsStripped(t) && 'Q' !in t && 'A' !in t
    ensures Clean(t)
  {
    LacksLead(t, QuestionMarker);
    LacksLead(t, AnswerMarker);
  }

  /** Two cards are formatted as their two lines joined by a newline. */
  lemma FormatPair(c0: Card, c1: Card)
    ensures Format([c0, c1]) == FormatLine(c0) + "\n" + FormatLine(c1)
  {
    assert [c0, c1][1..] == [c1];
    assert Lines([c0, c1]) == [FormatLine(c0)] + [FormatLine(c1)];
    JoinCons(FormatLine(c0), [FormatLine(c1)], "\n");
  }

  lemma ExampleFirstLine(c: Card)
    requires c == Card("What is 2+2?", "4")
    ensures FormatLine(c) == "Q: What is 2+2? A: 4"
  {
  }

  lemma ExampleSecondLine(c: Card)
    requires c == Card("Capital of France?", "Paris")
    ensures FormatLine(c) == "Q: Capital of France? A: Paris"
  {
  }

  lemma ExampleSeam(raw: string)
    requires raw == "Q: What is 2+2? A: 4\nQ: Capital of France? A: Paris"
    ensures raw == "Q: What is 2+2? A: 4" + "\n" + "Q: Capital of France? A: Paris"
  {
  }

  lemma ExampleText(raw: string, cards: seq<Card>)
    requires raw == "Q: What is 2+2? A: 4\nQ: Capital of France? A: Paris"
    requires cards == [Card("What is 2+2?", "4"), Card("Capital of France?", "Paris")]
    ensures raw == Format(cards)
  {
    ExampleFirstLine(cards[0]);
    ExampleSecondLine(cards[1]);
    ExampleSeam(raw);
    FormatPair(cards[0], cards[1]);
  }

  lemma ExampleClean(cards: seq<Card>)
    requires cards == [Card("What is 2+2?", "4"), Card("Capital of France?", "Paris")]
    ensures forall k | 0 <= k < |cards| :: Clean(cards[k].question) && Clean(cards[k].answer)
  {
    forall k | 0 <= k < |cards| ensures Clean(cards[k].question) && Clean(cards[k].answer) {
      CleanByChars(cards[k].question);
      CleanByChars(cards[k].answer);
    }
  }

  /** A two-card reply in the requested format parses into exactly those two cards. */
  lemma TwoCardExample(raw: string, cards: seq<Card>)
    requires raw == "Q: What is 2+2? A: 4\nQ: Capital of France? A: Paris"
    requires cards == [Card("What is 2+2?", "4"), Card("Capital of France?", "Paris")]
    ensures ParseFlashcards(raw) == cards
  {
    ExampleText(raw, cards);
    ExampleClean(cards);
    FormatRoundTrip(cards);
  }
}
