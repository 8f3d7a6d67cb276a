/**
 * `generate_answer`: retrieve hits for a query, build a prompt from the
 * first 600 characters of the hits, the last five history entries and the
 * query, ask the language model, and record the exchange in the
 * conversation history, which only ever grows.
 */
module Answering {
  import opened Wrappers
  import Py
  import VectorStore

  const NoHitsReply: string := "I couldn't find anything relevant. Try rephrasing?"
  const EmptyReply: string := "Something went wrong."
  const ErrorReply: string := "I'm having trouble understanding. Could you rephrase?"
  /** Characters of retrieved text that reach the prompt. */
  const ContextLimit: int := 600
  /** History entries that reach the prompt. */
  const HistoryWindow: int := 5
  /** Neighbours asked of the store (the default `k` of `search`). */
  const TopK: int := 5

  /**
   * `run_llama(prompt)`: the model's stripped standard output, `None` on a
   * non-zero exit status, or an exception raised by `subprocess.run`.
   */
  datatype LlamaResult = Exited(output: Option<string>) | Raised

  /** `"\n".join(hits)[:600]`: cut at the character budget, not at a word. */
  function Context(hits: seq<string>): (context: string)
    ensures var joined := Py.Join("\n", hits);
            |context| == (if |joined| < ContextLimit then |joined| else ContextLimit) &&
            context == joined[..|context|]
  {
    Py.SlicePrefix(Py.Join("\n", hits), ContextLimit);
    Py.Slice(Py.Join("\n", hits), 0, ContextLimit)
  }

  /** The entries `conversation_history[-5:]` that the prompt shows. */
  function RecentEntries(history: seq<string>): seq<string>
  {
    Py.Slice(history, -HistoryWindow, |history|)
  }

  const Indent: string := "            "

  /** The prompt template, its three `{}` slots filled with the past conversation, the context and the query. */
  function Prompt(past: string, context: string, query: string): string
  {
    "\n" + Indent + "You are a helpful AI assistant.\n"
    + Indent + "Maintain a conversational tone and use context from previous chats.\n"
    + "\n"
    + Indent + "Past Conversation:\n"
    + Indent + past + "\n"
    + Indent + "\n"
    + Indent + "Context: " + context + "\n"
    + "\n"
    + Indent + "Answer the following in a friendly and engaging way:\n"
    + Indent + query + "\n"
    + "        "
  }

  /** How `f"AI: {response}"` renders the response: `None` prints as `None`. */
  function Show(response: Option<string>): string
  {
    match response
    case None => "None"
    case Some(s) => s
  }

  /** The reply of `generate_answer` and the history it leaves behind. */
  datatype Outcome = Outcome(answer: string, history: seq<string>)

  /**
   * `generate_answer(query)` given the history before the call, what the
   * search returned (`None`: it raised) and the language model.
   */
  function Exchange(history: seq<string>, query: string, hits: Option<seq<string>>,
                    llm: string -> LlamaResult): (r: Outcome)
    ensures history <= r.history && |r.history| <= |history| + 2
    ensures (hits.None? || hits == Some([])) ==> r.history == history
    ensures hits == Some([]) ==> r.answer == NoHitsReply
    ensures hits.None? ==> r.answer == ErrorReply
    ensures hits.Some? && hits.value != [] ==>
              |r.history| > |history| && r.history[|history|] == "User: " + query
    ensures r.answer != ""
  {
    match hits
    case None => Outcome(ErrorReply, history)
    case Some(docs) =>
      if docs == [] then Outcome(NoHitsReply, history)
      else
        var asked := history + ["User: " + query];
        var prompt := Prompt(Py.Join("\n", RecentEntries(asked)), Context(docs), query);
        match llm(prompt)
        case Raised => Outcome(ErrorReply, asked)
        case Exited(response) =>
          var answer := if response.Some? && response.value != "" then response.value else EmptyReply;
          Outcome(answer, asked + ["AI: " + Show(response)])
  }

  /**
   * When the search finds something and the model runs, the history grows
   * by exactly the user entry and then the model entry, and the reply is
   * the model's output unless that is missing or empty.
   */
  lemma ExchangeWithHits(history: seq<string>, query: string, docs: seq<string>, llm: string -> LlamaResult)
    requires docs != []
    ensures var asked := history + ["User: " + query];
            var prompt := Prompt(Py.Join("\n", RecentEntries(asked)), Context(docs), query);
            var r := Exchange(history, query, Some(docs), llm);
            match llm(prompt)
            case Raised => r == Outcome(ErrorReply, asked)
            case Exited(response) =>
              r.history == history + ["User: " + query, "AI: " + Show(response)] &&
              (r.answer == if response.Some? && response.value != "" then response.value else EmptyReply)
  {
  }

  /**
   * The past-conversation block is built after the user entry is added:
   * it shows the last `min(5, n + 1)` entries, ending with that entry.
   */
  lemma PromptWindow(history: seq<string>, query: string)
    ensures var asked := history + ["User: " + query];
            var recent := RecentEntries(asked);
            |recent| == (if |asked| < HistoryWindow then |asked| else HistoryWindow) &&
            asked == asked[..|asked| - |recent|] + recent &&
            recent[|recent| - 1] == "User: " + query
  {
    var asked := history + ["User: " + query];
    Py.SliceLast(asked, HistoryWindow);
  }

  /** One call of `generate_answer` in a conversation: the query and what the search returned for it. */
  datatype Turn = Turn(query: string, hits: Option<seq<string>>)

  /** The history after a sequence of calls, starting from `history`. */
  function Replay(history: seq<string>, turns: seq<Turn>, llm: string -> LlamaResult): seq<string>
    decreases |turns|
  {
    if turns == [] then history
    else Replay(Exchange(history, turns[0].query, turns[0].hits, llm).history, turns[1..], llm)
  }

  /** The model always runs to completion, whatever the prompt. */
  ghost predicate AlwaysRuns(llm: string -> LlamaResult) {
    forall p :: llm(p).Exited?
  }

  /** The search found something for every turn. */
  predicate AllFound(turns: seq<Turn>) {
    forall i :: 0 <= i < |turns| ==> turns[i].hits.Some? && turns[i].hits.value != []
  }

  /**
   * The history is never trimmed: every earlier entry survives any number
   * of calls, and each call adds at most two entries.
   */
  lemma {:induction false} HistoryOnlyGrows(history: seq<string>, turns: seq<Turn>, llm: string -> LlamaResult)
    ensures history <= Replay(history, turns, llm)
    ensures |Replay(history, turns, llm)| <= |history| + 2 * |turns|
    decreases |turns|
  {
    if turns != [] {
      var t := turns[0];
      var next := Exchange(history, t.query, t.hits, llm).history;
      HistoryOnlyGrows(next, turns[1..], llm);
    }
  }

  /** A call whose search finds something and whose model runs adds exactly two entries. */
  lemma ExchangeAddsTwo(history: seq<string>, query: string, docs: seq<string>, llm: string -> LlamaResult)
    requires docs != [] && AlwaysRuns(llm)
    ensures |Exchange(history, query, Some(docs), llm).history| == |history| + 2
  {
    ExchangeWithHits(history, query, docs, llm);
  }

  /** When every search finds something and the model always runs, every call adds exactly two entries. */
  lemma {:induction false} HistoryGrowsByTwo(history: seq<string>, turns: seq<Turn>, llm: string -> LlamaResult)
    requires AlwaysRuns(llm) && AllFound(turns)
    ensures |Replay(history, turns, llm)| == |history| + 2 * |turns|
    decreases |turns|
  {
    if turns != [] {
      var t := turns[0];
      assert t.hits.Some? && t.hits.value != [];
      var next := Exchange(history, t.query, t.hits, llm).history;
      assert |next| == |history| + 2 by {
        ExchangeAddsTwo(history, t.query, t.hits.value, llm);
      }
      assert AllFound(turns[1..]) by {
        assert forall i :: 0 <= i < |turns| - 1 ==> turns[1..][i] == turns[i + 1];
      }
      HistoryGrowsByTwo(next, turns[1..], llm);
    }
  }

  /** The module-level state of `generate_answer`: the shared vector store and `conversation_history`. */
  class Assistant {
    const store: VectorStore.FaissVectorStore
    var history: seq<string>

    constructor (store: VectorStore.FaissVectorStore)
      ensures this.store == store && history == []
    {
      this.store := store;
      history := [];
    }

    /**
     * `generate_answer(query)`: search the store for `TopK` hits, reply with
     * a fixed string when there are none, otherwise record the query, ask
     * the model with the recent history and the context, record its
     * response and reply with it or with a fixed string.
     */
    method GenerateAnswer(query: string, knn: (seq<VectorStore.Vector>, VectorStore.Vector, int) -> seq<int>,
                          llm: string -> LlamaResult) returns (answer: string)
      requires store.Valid()
      modifies this
      ensures Outcome(answer, history) == Exchange(old(history), query, store.Retrieve(query, TopK, knn), llm)
    {
      var hits := store.Search(query, TopK, knn);
      if hits.None? {
        return ErrorReply;
      }
      if hits.value == [] {
        return NoHitsReply;
      }
      var context := Context(hits.value);
      history := history + ["User: " + query];
      var prompt := Prompt(Py.Join("\n", RecentEntries(history)), context, query);
      var response := llm(prompt);
      if response.Raised? {
        return ErrorReply;
      }
      history := history + ["AI: " + Show(response.output)];
      answer := if response.output.Some? && response.output.value != "" then response.output.value else EmptyReply;
    }
  }
}
