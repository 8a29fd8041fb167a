/**
 * The conversation sent to the chat model on every chat turn (src/app.py,
 * the chat branch): four fixed bootstrap turns, then the session history in
 * order, minus the messages that look like bootstrap turns, with the session
 * roles mapped onto the two roles the model API knows. Also the loop that
 * accumulates the streamed reply.
 */
module Conversation {
  import opened Text

  /** Session messages use User and Assistant; the model API uses User and Model. */
  datatype Role = User | Assistant | Model

  /** A message part: a text, or an image (forwarded as it is). */
  datatype Part = TextPart(text: string) | Image(data: seq<bv8>)

  datatype Message = Message(role: Role, parts: seq<Part>)

  /** A message whose first part is a text: the history filter reads that text. */
  predicate Readable(m: Message) {
    m.parts != [] && m.parts[0].TextPart?
  }

  predicate AllReadable(history: seq<Message>) {
    forall k :: 0 <= k < |history| ==> Readable(history[k])
  }

  /** The text of a message's first part. */
  function Lead(m: Message): string
    requires Readable(m)
  {
    m.parts[0].text
  }

  /** A message made of one text part. */
  function Say(role: Role, text: string): (m: Message)
    ensures Readable(m) && Lead(m) == text
  {
    Message(role, [TextPart(text)])
  }

  const GreetingPrefix: string := "Hello! I'm FlashMind AI."
  const DocumentPrefix: string := "Here is the document for analysis:"
  const ProcessedPrefix: string := "I have processed the document about"

  /** The bootstrap greeting the model is made to have said. */
  const Greeting: string := GreetingPrefix + " How can I help you learn from your document?"

  /** The bootstrap turn carrying the document text. */
  function DocumentTurn(document: string): string {
    DocumentPrefix + "\n\n---\n" + document + "\n---"
  }

  /** The bootstrap turn acknowledging the document. */
  function ProcessedTurn(title: string): string {
    ProcessedPrefix + " **" + title + "**. What would you like to do?"
  }

  /** The four turns every request starts with. */
  function Bootstrap(systemPrompt: string, document: string, title: string): seq<Message> {
    [ Say(User, systemPrompt), Say(Model, Greeting),
      Say(User, DocumentTurn(document)), Say(Model, ProcessedTurn(title)) ]
  }

  /**
   * The four patterns of the history filter. The greeting pattern asks for the
   * Assistant role, although the bootstrap greeting itself is sent as Model.
   */
  predicate IsSystemPromptTurn(systemPrompt: string, m: Message) requires Readable(m) {
    m.role == User && Lead(m) == systemPrompt
  }
  predicate IsGreetingTurn(m: Message) requires Readable(m) {
    m.role == Assistant && StartsWith(Lead(m), GreetingPrefix)
  }
  predicate IsDocumentTurn(m: Message) requires Readable(m) {
    m.role == User && StartsWith(Lead(m), DocumentPrefix)
  }
  predicate IsProcessedTurn(m: Message) requires Readable(m) {
    m.role == Model && StartsWith(Lead(m), ProcessedPrefix)
  }

  /** A history message that is forwarded: it matches none of the four patterns. */
  predicate Kept(systemPrompt: string, m: Message) requires Readable(m) {
    !(IsSystemPromptTurn(systemPrompt, m) || IsGreetingTurn(m) || IsDocumentTurn(m) || IsProcessedTurn(m))
  }

  /** User stays User; every other role becomes Model. */
  function ApiRole(r: Role): (a: Role)
    ensures a != Assistant
    ensures a == User <==> r == User
  {
    if r == User then User else Model
  }

  /** A history message as the model API receives it: its role mapped, its parts as they are. */
  function ForApi(m: Message): Message {
    Message(ApiRole(m.role), m.parts)
  }

  /** The history messages that are forwarded, mapped, in order. */
  function Forwarded(systemPrompt: string, history: seq<Message>): (out: seq<Message>)
    requires AllReadable(history)
    ensures |out| <= |history|
    decreases |history|
  {
    if history == [] then []
    else
      var last := history[|history| - 1];
      Forwarded(systemPrompt, history[..|history| - 1])
        + (if Kept(systemPrompt, last) then [ForApi(last)] else [])
  }

  /** The whole list sent on a chat turn. */
  function ApiMessages(systemPrompt: string, document: string, title: string, history: seq<Message>): seq<Message>
    requires AllReadable(history)
  {
    Bootstrap(systemPrompt, document, title) + Forwarded(systemPrompt, history)
  }

  /** The request-building loop of the chat turn. */
  method BuildApiMessages(systemPrompt: string, document: string, title: string, history: seq<Message>)
    returns (api: seq<Message>)
    requires AllReadable(history)
    ensures api == ApiMessages(systemPrompt, document, title, history)
  {
    api := [Say(User, systemPrompt), Say(Model, Greeting)];
    api := api + [Say(User, DocumentTurn(document)), Say(Model, ProcessedTurn(title))];
    for i := 0 to |history|
      invariant api == Bootstrap(systemPrompt, document, title) + Forwarded(systemPrompt, history[..i])
    {
      var msg := history[i];
      var isSystemPrompt := msg.role == User && msg.parts[0].text == systemPrompt;
      var isGreeting := msg.role == Assistant && StartsWith(msg.parts[0].text, GreetingPrefix);
      var isDocument := msg.role == User && StartsWith(msg.parts[0].text, DocumentPrefix);
      var isProcessed := msg.role == Model && StartsWith(msg.parts[0].text, ProcessedPrefix);
      if !(isSystemPrompt || isGreeting || isDocument || isProcessed) {
        var role := if msg.role == User then User else Model;
        api := api + [Message(role, msg.parts)];
      }
      assert history[..i + 1][..i] == history[..i];
    }
    assert history[..|history|] == history;
  }

  // ---------------------------------------------------------------------------
  // What the forwarded list is made of.
  // ---------------------------------------------------------------------------

  /** Forwarding a history extended by one message forwards that message last, when it is kept. */
  lemma ForwardedSnoc(systemPrompt: string, history: seq<Message>, m: Message)
    requires AllReadable(history) && Readable(m)
    ensures AllReadable(history + [m])
    ensures Forwarded(systemPrompt, history + [m])
         == Forwarded(systemPrompt, history) + (if Kept(systemPrompt, m) then [ForApi(m)] else [])
  {
    assert (history + [m])[..|history|] == history;
  }

  /**
   * A typed chat prompt reaches the model, as the last message of the
   * request, exactly when it is not the system prompt and does not start
   * with the document-turn prefix; otherwise the request is the one the
   * history alone would give.
   */
  lemma PromptForwarded(systemPrompt: string, history: seq<Message>, prompt: string)
    requires AllReadable(history)
    ensures AllReadable(history + [Say(User, prompt)])
    ensures Forwarded(systemPrompt, history + [Say(User, prompt)])
         == Forwarded(systemPrompt, history)
            + (if prompt != systemPrompt && !StartsWith(prompt, DocumentPrefix) then [Say(User, prompt)] else [])
  {
    ForwardedSnoc(systemPrompt, history, Say(User, prompt));
  }

  /** Each forwarded message is the mapped copy of the kept history message `idx` names. */
  ghost predicate Traced(systemPrompt: string, history: seq<Message>, idx: seq<nat>)
    requires AllReadable(history)
  {
    var out := Forwarded(systemPrompt, history);
    && |idx| == |out|
    && (forall k :: 0 <= k < |idx| ==>
          idx[k] < |history| && Kept(systemPrompt, history[idx[k]]) && out[k] == ForApi(history[idx[k]]))
  }

  /** Every kept history message is named by `idx`. */
  ghost predicate Covers(systemPrompt: string, history: seq<Message>, idx: seq<nat>)
    requires AllReadable(history)
  {
    forall j :: 0 <= j < |history| && Kept(systemPrompt, history[j]) ==> j in idx
  }

  /** Where the forwarded messages come from: an increasing, complete index into the history. */
  ghost predicate Origins(systemPrompt: string, history: seq<Message>, idx: seq<nat>)
    requires AllReadable(history)
  {
    Traced(systemPrompt, history, idx) && Increasing(idx) && Covers(systemPrompt, history, idx)
  }

  /** The history positions of the forwarded messages. */
  function OriginIndex(systemPrompt: string, history: seq<Message>): (idx: seq<nat>)
    requires AllReadable(history)
    ensures Origins(systemPrompt, history, idx)
    decreases |history|
  {
    if history == [] then []
    else
      var n := |history| - 1;
      var rest := OriginIndex(systemPrompt, history[..n]);
      var idx := rest + (if Kept(systemPrompt, history[n]) then [n] else []);
      TracedStep(systemPrompt, history, rest);
      IncreasingStep(rest, n, idx);
      CoversStep(systemPrompt, history, rest);
      idx
  }

  lemma TracedStep(systemPrompt: string, history: seq<Message>, rest: seq<nat>)
    requires history != [] && AllReadable(history)
    requires Traced(systemPrompt, history[..|history| - 1], rest)
    ensures Traced(systemPrompt, history,
              rest + (if Kept(systemPrompt, history[|history| - 1]) then [|history| - 1] else []))
  {
    var n := |history| - 1;
    var front := history[..n];
    var idx := rest + (if Kept(systemPrompt, history[n]) then [n] else []);
    var out := Forwarded(systemPrompt, history);
    assert out == Forwarded(systemPrompt, front) + (if Kept(systemPrompt, history[n]) then [ForApi(history[n])] else []);
    forall k | 0 <= k < |rest|
      ensures idx[k] < |history| && Kept(systemPrompt, history[idx[k]]) && out[k] == ForApi(history[idx[k]])
    {
      assert front[rest[k]] == history[rest[k]];
    }
  }

  lemma IncreasingStep(rest: seq<nat>, n: nat, idx: seq<nat>)
    requires Increasing(rest) && forall k :: 0 <= k < |rest| ==> rest[k] < n
    requires idx == rest || idx == rest + [n]
    ensures Increasing(idx)
  {
  }

  lemma CoversStep(systemPrompt: string, history: seq<Message>, rest: seq<nat>)
    requires history != [] && AllReadable(history)
    requires Covers(systemPrompt, history[..|history| - 1], rest)
    ensures Covers(systemPrompt, history,
              rest + (if Kept(systemPrompt, history[|history| - 1]) then [|history| - 1] else []))
  {
    var n := |history| - 1;
    var front := history[..n];
    var idx := rest + (if Kept(systemPrompt, history[n]) then [n] else []);
    forall j | 0 <= j < |history| && Kept(systemPrompt, history[j])
      ensures j in idx
    {
      if j < n {
        assert front[j] == history[j];
        assert j in rest;
      } else {
        assert idx[|idx| - 1] == n;
      }
    }
  }

  /** Every message of a request carries one of the two roles the model API knows. */
  lemma ApiRoles(systemPrompt: string, document: string, title: string, history: seq<Message>)
    requires AllReadable(history)
    ensures forall m <- ApiMessages(systemPrompt, document, title, history) :: m.role == User || m.role == Model
  {
    var idx := OriginIndex(systemPrompt, history);
    var out := Forwarded(systemPrompt, history);
    forall k | 0 <= k < |out| ensures out[k].role != Assistant {
      assert out[k] == ForApi(history[idx[k]]);
    }
  }

  /** A history made only of kept messages is forwarded whole, with only the roles changed. */
  lemma {:induction false} AllKeptForwarded(systemPrompt: string, history: seq<Message>)
    requires AllReadable(history)
    requires forall k :: 0 <= k < |history| ==> Kept(systemPrompt, history[k])
    ensures |Forwarded(systemPrompt, history)| == |history|
    ensures forall k :: 0 <= k < |history| ==> Forwarded(systemPrompt, history)[k] == ForApi(history[k])
    decreases |history|
  {
    if history != [] {
      var n := |history| - 1;
      var front := history[..n];
      assert forall k :: 0 <= k < n ==> front[k] == history[k];
      AllKeptForwarded(systemPrompt, front);
      assert Forwarded(systemPrompt, history) == Forwarded(systemPrompt, front) + [ForApi(history[n])];
    }
  }

  /**
   * Of the four bootstrap turns, the filter recognises three; the greeting
   * alone would be forwarded again, because it is sent as Model while its
   * pattern asks for Assistant.
   */
  lemma BootstrapRecognised(systemPrompt: string, document: string, title: string)
    ensures var b := Bootstrap(systemPrompt, document, title);
      && !Kept(systemPrompt, b[0]) && Kept(systemPrompt, b[1])
      && !Kept(systemPrompt, b[2]) && !Kept(systemPrompt, b[3])
  {
    assert Greeting[0] != ProcessedPrefix[0];
    PrefixOfConcat(DocumentPrefix, "\n\n---\n" + document + "\n---");
    PrefixOfConcat(ProcessedPrefix, " **" + title + "**. What would you like to do?");
  }

  lemma PrefixOfConcat(p: string, s: string)
    ensures StartsWith(p + s, p)
  {
    assert (p + s)[..|p|] == p;
  }

  // ---------------------------------------------------------------------------
  // The streamed reply.
  // ---------------------------------------------------------------------------

  /** All chunk texts, concatenated in order. */
  function Concat(chunks: seq<string>): string
    decreases |chunks|
  {
    if chunks == [] then [] else Concat(chunks[..|chunks| - 1]) + chunks[|chunks| - 1]
  }

  /** Leaving out the empty chunks does not change the concatenation. */
  lemma {:induction false} ConcatNonEmpty(chunks: seq<string>)
    ensures Concat(chunks) == Concat(NonEmpty(chunks))
    decreases |chunks|
  {
    if chunks != [] {
      var n := |chunks| - 1;
      ConcatNonEmpty(chunks[..n]);
      var front := NonEmpty(chunks[..n]);
      if chunks[n] == [] {
        assert NonEmpty(chunks) == front;
        assert Concat(chunks) == Concat(chunks[..n]);
      } else {
        var kept := front + [chunks[n]];
        assert kept[..|front|] == front;
        assert Concat(kept) == Concat(front) + chunks[n];
      }
    }
  }

  /** The non-empty chunks, in order. */
  function NonEmpty(chunks: seq<string>): (r: seq<string>)
    ensures |r| <= |chunks|
    ensures forall k :: 0 <= k < |r| ==> r[k] != []
    decreases |chunks|
  {
    if chunks == [] then []
    else NonEmpty(chunks[..|chunks| - 1]) + (if chunks[|chunks| - 1] == [] then [] else [chunks[|chunks| - 1]])
  }

  /** The stream loop: every non-empty chunk text is appended to the reply, so the reply is the whole stream. */
  method ReadStream(chunks: seq<string>) returns (full: string)
    ensures full == Concat(NonEmpty(chunks))
    ensures full == Concat(chunks)
  {
    full := "";
    for i := 0 to |chunks|
      invariant full == Concat(NonEmpty(chunks[..i]))
    {
      var kept := NonEmpty(chunks[..i]);
      assert chunks[..i + 1][..i] == chunks[..i];
      if chunks[i] != [] {
        assert NonEmpty(chunks[..i + 1]) == kept + [chunks[i]];
        assert (kept + [chunks[i]])[..|kept|] == kept;
        full := full + chunks[i];
      } else {
        assert NonEmpty(chunks[..i + 1]) == kept;
      }
    }
    assert chunks[..|chunks|] == chunks;
    ConcatNonEmpty(chunks);
  }
}
